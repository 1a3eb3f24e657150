/** The viewer together with its background decoder.

    The decoder takes `Load` commands from one channel in order, decodes
    one image at a time, and answers each command exactly once on another
    channel, again in order. From the viewer's side the two channels and the
    worker therefore behave as one first-in-first-out queue: the commands
    not yet answered are the suffix of the outbox after the first
    `answered` commands, and the next result to arrive is about the oldest
    of them. */
module Decoding {

  import opened Base
  import opened App
  import Folder

  datatype Session = Session(viewer: Viewer, answered: nat)

  /** The commands sent and not yet answered, oldest first. */
  function Pending(s: Session): seq<Command>
    requires s.answered <= |s.viewer.outbox|
  {
    s.viewer.outbox[s.answered..]
  }

  /** At most one outstanding request per path, and the set of paths being
      loaded is exactly the set of paths with an outstanding request. */
  ghost predicate LoadsTracked(s: Session) {
    && s.answered <= |s.viewer.outbox|
    && Distinct(Pending(s))
    && (forall p :: p in s.viewer.loading <==> Load(p) in Pending(s))
    && s.viewer.cache.Keys !! s.viewer.loading
  }

  /** The folder, index and current path agree: an empty folder has no
      current image, and otherwise the current image is the one at the
      index. */
  ghost predicate ScreenConsistent(v: Viewer) {
    && (v.images == [] <==> v.currentPath.None?)
    && (v.images != [] ==> v.index < |v.images| && v.currentPath == Some(v.images[v.index]))
  }

  ghost predicate Inv(s: Session) {
    LoadsTracked(s) && ScreenConsistent(s.viewer)
  }

  /** A result can arrive only for the oldest unanswered command. */
  predicate CanDeliver(s: Session, res: LoadResult) {
    s.answered < |s.viewer.outbox| && s.viewer.outbox[s.answered] == Load(res.path)
  }

  function Deliver(s: Session, res: LoadResult): (r: Session)
    requires CanDeliver(s, res)
    ensures r.answered == s.answered + 1
  {
    Session(ApplyResult(s.viewer, res), s.answered + 1)
  }

  lemma EmptyIsConsistent()
    ensures Inv(Session(Empty, 0))
  {
  }

  lemma {:induction false} RequestLoadKeepsTracked(s: Session, p: Path)
    requires LoadsTracked(s)
    ensures LoadsTracked(Session(RequestLoad(s.viewer, p), s.answered))
  {
    var v := s.viewer;
    var r := RequestLoad(v, p);
    var t := Session(r, s.answered);
    if p !in v.cache && p !in v.loading {
      assert Pending(t) == Pending(s) + [Load(p)];
      assert Load(p) !in Pending(s);
      forall i, j | 0 <= i < j < |Pending(t)|
        ensures Pending(t)[i] != Pending(t)[j]
      {
        if j == |Pending(s)| {
          assert Pending(t)[i] in Pending(s);
        }
      }
      forall q
        ensures q in r.loading <==> Load(q) in Pending(t)
      {
        assert Load(q) in Pending(t) <==> Load(q) in Pending(s) || q == p;
      }
    }
  }

  lemma {:induction false} UpdatePreloadsKeepsTracked(s: Session)
    requires LoadsTracked(s) && SafeIndex(s.viewer)
    ensures LoadsTracked(Session(UpdatePreloads(s.viewer), s.answered))
  {
    var v := s.viewer;
    if v.images != [] {
      var len := |v.images|;
      var prev := v.images[PrevIndex(v.index, len)];
      var next := v.images[NextIndex(v.index, len)];
      RequestLoadKeepsTracked(s, prev);
      var v1 := RequestLoad(v, prev);
      RequestLoadKeepsTracked(Session(v1, s.answered), next);
    }
  }

  lemma {:induction false} LoadFileKeepsTracked(s: Session, p: Path, resetView: bool)
    requires LoadsTracked(s) && SafeIndex(s.viewer)
    ensures LoadsTracked(Session(LoadFile(s.viewer, p, resetView), s.answered))
  {
    var v0 := s.viewer.(currentPath := Some(p), resetViewOnLoad := resetView, errorMsg := None);
    var s0 := Session(v0, s.answered);
    RequestLoadKeepsTracked(s0, p);
    var v1 := RequestLoad(v0, p);
    UpdatePreloadsKeepsTracked(Session(v1, s.answered));
  }

  /** Moving to the next image keeps every invariant. */
  lemma NextImagePreservesInv(s: Session)
    requires Inv(s)
    ensures Inv(Session(NextImage(s.viewer), s.answered))
  {
    var v := s.viewer;
    if v.images != [] {
      var i := NextIndex(v.index, |v.images|);
      LoadFileKeepsTracked(Session(v.(index := i), s.answered), v.images[i], false);
    }
  }

  /** Moving to the previous image keeps every invariant. */
  lemma PrevImagePreservesInv(s: Session)
    requires Inv(s)
    ensures Inv(Session(PrevImage(s.viewer), s.answered))
  {
    var v := s.viewer;
    if v.images != [] {
      var i := PrevIndex(v.index, |v.images|);
      LoadFileKeepsTracked(Session(v.(index := i), s.answered), v.images[i], false);
    }
  }

  /** Opening any file or folder keeps every invariant, whatever state the
      viewer was in before. */
  lemma LoadPathPreservesInv(s: Session, path: Path, kind: PathKind)
    requires Inv(s)
    ensures Inv(Session(LoadPath(s.viewer, path, kind), s.answered))
  {
    var v := s.viewer;
    match kind
    case Directory(listing) =>
      var images := Folder.FolderImages(listing);
      if images != [] {
        LoadFileKeepsTracked(Session(v.(images := images, index := 0), s.answered), images[0], true);
      }
    case File(parent) =>
      var v1 :=
        match parent
        case Some(listing) =>
          var images := Folder.FolderImages(listing);
          (match Position(images, path)
           case Some(i) => v.(images := images, index := i)
           case None => v.(images := [path], index := 0))
        case None => v.(images := [path], index := 0);
      LoadFileKeepsTracked(Session(v1, s.answered), path, true);
  }

  /** Taking in the answer to the oldest request keeps every invariant: the
      path leaves the loading set exactly when its only request leaves the
      queue. */
  lemma {:induction false} DeliverPreservesInv(s: Session, res: LoadResult)
    requires Inv(s) && CanDeliver(s, res)
    ensures Inv(Deliver(s, res))
  {
    var t := Deliver(s, res);
    assert Pending(s) == [Load(res.path)] + Pending(t);
    forall q
      ensures q in t.viewer.loading <==> Load(q) in Pending(t)
    {
      if q == res.path {
        forall k | 0 <= k < |Pending(t)|
          ensures Pending(t)[k] != Load(q)
        {
          assert Pending(t)[k] == Pending(s)[k + 1];
        }
      } else {
        assert Load(q) in Pending(s) <==> Load(q) in Pending(t);
      }
    }
  }

  lemma BatchTailQueued(s: Session, results: seq<LoadResult>)
    requires results != [] && AnswersQueue(s, results)
    ensures CanDeliver(s, results[0])
    ensures AnswersQueue(Deliver(s, results[0]), results[1..])
  {
    assert s.viewer.outbox[s.answered + 0] == Load(results[0].path);
    var t := Deliver(s, results[0]);
    assert t.viewer.outbox == s.viewer.outbox;
    forall i | 0 <= i < |results[1..]|
      ensures t.viewer.outbox[t.answered + i] == Load(results[1..][i].path)
    {
      assert results[1..][i] == results[i + 1];
    }
  }

  /** The next `|results|` queued commands are answered by `results`, in
      order. */
  predicate AnswersQueue(s: Session, results: seq<LoadResult>) {
    && s.answered + |results| <= |s.viewer.outbox|
    && forall i :: 0 <= i < |results| ==> s.viewer.outbox[s.answered + i] == Load(results[i].path)
  }

  /** Delivers a frame's batch of answers one by one. */
  function DeliverAll(s: Session, results: seq<LoadResult>): (r: Session)
    requires AnswersQueue(s, results)
    ensures r.viewer == ApplyResults(s.viewer, results)
    ensures r.answered == s.answered + |results|
    decreases |results|
  {
    if results == [] then s
    else
      BatchTailQueued(s, results);
      DeliverAll(Deliver(s, results[0]), results[1..])
  }

  /** A frame's whole batch of answers, taken in arrival order, keeps every
      invariant, and answers the batch's requests. */
  lemma {:induction false} DeliverBatchPreservesInv(s: Session, results: seq<LoadResult>)
    requires Inv(s) && AnswersQueue(s, results)
    ensures Inv(DeliverAll(s, results))
    decreases |results|
  {
    if results != [] {
      DeliverPreservesInv(s, results[0]);
      BatchTailQueued(s, results);
      DeliverBatchPreservesInv(Deliver(s, results[0]), results[1..]);
    }
  }

  /** The loading indicator is on exactly when the image on screen has a
      request queued, so while it is on a result for that image is on its
      way. */
  lemma LoadingIsAnswered(s: Session)
    requires Inv(s)
    ensures IsLoading(s.viewer) <==>
              s.viewer.currentPath.Some? && Load(s.viewer.currentPath.value) in Pending(s)
  {
  }

  /** Once every queued request has been answered the loading set is empty,
      so the loading indicator goes away. */
  lemma DrainingEndsLoading(s: Session, results: seq<LoadResult>)
    requires Inv(s) && AnswersQueue(s, results)
    requires s.answered + |results| == |s.viewer.outbox|
    ensures DeliverAll(s, results).viewer.loading == {}
    ensures !IsLoading(DeliverAll(s, results).viewer)
  {
    forall p | p in s.viewer.loading
      ensures p in ResultPaths(results)
    {
      var k :| 0 <= k < |Pending(s)| && Pending(s)[k] == Load(p);
      assert s.viewer.outbox[s.answered + k] == Load(results[k].path);
      assert results[k] in results;
    }
  }

  /** Going forward and then back returns to the same image. */
  lemma NextThenPrev(v: Viewer)
    requires v.index < |v.images|
    ensures PrevImage(NextImage(v)).index == v.index
    ensures PrevImage(NextImage(v)).currentPath == Some(v.images[v.index])
  {
  }

  /** Going back and then forward returns to the same image. */
  lemma PrevThenNext(v: Viewer)
    requires v.index < |v.images|
    ensures NextImage(PrevImage(v)).index == v.index
    ensures NextImage(PrevImage(v)).currentPath == Some(v.images[v.index])
  {
  }
}

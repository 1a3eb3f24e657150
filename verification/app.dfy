/** The image viewer's navigation and preload-cache state machine.

    The viewer holds the folder being browsed, the index and path of the
    image on screen, a cache of decoded images, the set of paths whose
    decode has been requested and not yet answered, and an outbox: every
    `Load` command sent to the background decoder, in order. Decoded
    textures are opaque `Image` values. */
module App {

  import opened Base
  import Folder

  /** A decoded image (standing for the texture made from it). */
  datatype Image = Image(width: nat, height: nat)

  /** The one command the decoder accepts. */
  datatype Command = Load(path: Path)

  /** What the decoder sends back for one `Load`. */
  datatype LoadResult =
    | Success(path: Path, image: Image)
    | Error(path: Path, message: string)

  datatype Viewer = Viewer(
    errorMsg: Option<string>,
    lastLoadedPath: Option<Path>,
    imageSize: Option<(nat, nat)>,
    images: seq<Path>,
    index: nat,
    currentPath: Option<Path>,
    cache: map<Path, Image>,
    loading: set<Path>,
    // Set when a load should reset the pan/zoom view once its image
    // arrives; the reset itself is this flag going from true to false.
    resetViewOnLoad: bool,
    outbox: seq<Command>)

  /** How an opened path presents itself: a directory with its listing, or
      anything else with the listing of its parent directory (None when the
      path has no parent). */
  datatype PathKind =
    | Directory(listing: seq<Folder.Entry>)
    | File(parentListing: Option<seq<Folder.Entry>>)

  const NoImagesMessage: string := "No images found in the folder."

  const Empty: Viewer :=
    Viewer(None, None, None, [], 0, None, map[], {}, true, [])

  /** The weakest condition under which the neighbour computation stays in
      bounds: the index may exceed the last position by at most one. */
  predicate SafeIndex(v: Viewer) {
    v.images != [] ==> v.index <= |v.images|
  }

  /** The fields a cache or loader operation leaves alone. */
  predicate SameScreen(v: Viewer, r: Viewer) {
    && r.errorMsg == v.errorMsg
    && r.lastLoadedPath == v.lastLoadedPath
    && r.imageSize == v.imageSize
    && r.images == v.images
    && r.index == v.index
    && r.currentPath == v.currentPath
    && r.resetViewOnLoad == v.resetViewOnLoad
  }

  /** Only commands for paths that have just started loading were sent,
      after those sent before. */
  predicate NewRequestsOnly(v: Viewer, r: Viewer) {
    && v.outbox <= r.outbox
    && forall i :: |v.outbox| <= i < |r.outbox| ==> r.outbox[i].path in r.loading - v.loading
  }

  lemma NewRequestsChain(a: Viewer, b: Viewer, c: Viewer)
    requires NewRequestsOnly(a, b) && NewRequestsOnly(b, c)
    requires a.loading <= b.loading <= c.loading
    ensures NewRequestsOnly(a, c)
  {
    forall i | |a.outbox| <= i < |c.outbox|
      ensures c.outbox[i].path in c.loading - a.loading
    {
      if i < |b.outbox| {
        assert c.outbox[i] == b.outbox[i];
      }
    }
  }

  /** True while the image on screen is waiting for its decode. */
  predicate IsLoading(v: Viewer) {
    match v.currentPath
    case Some(p) => p in v.loading
    case None => false
  }

  /** The index before `i`, wrapping from the first position to the last. */
  function PrevIndex(i: nat, len: nat): (r: nat)
    requires 0 < len && i <= len
    ensures r < len
    ensures i < len ==> (r + 1) % len == i
  {
    if i == 0 then len - 1 else i - 1
  }

  /** The index after `i`, wrapping from the last position to the first. */
  function NextIndex(i: nat, len: nat): (r: nat)
    requires 0 < len
    ensures r < len
    ensures i < len ==> PrevIndex(r, len) == i
  {
    (i + 1) % len
  }

  /** Asks the decoder for `p` unless it is cached or already requested. */
  function RequestLoad(v: Viewer, p: Path): (r: Viewer)
    ensures SameScreen(v, r) && r.cache == v.cache
    ensures p in r.cache || p in r.loading
    ensures r.loading == v.loading + ({p} - v.cache.Keys)
    ensures r.outbox == v.outbox || r.outbox == v.outbox + [Load(p)]
    ensures r.outbox != v.outbox <==> p !in v.cache && p !in v.loading
    ensures NewRequestsOnly(v, r)
  {
    if p !in v.cache && p !in v.loading then
      v.(loading := v.loading + {p}, outbox := v.outbox + [Load(p)])
    else
      v
  }

  /** The paths the cache may keep once the neighbours are preloaded. */
  function KeepSet(v: Viewer, prev: Path, next: Path): set<Path> {
    (match v.currentPath case Some(c) => {c} case None => {}) + {prev, next}
  }

  /** Requests the neighbours of the current image and drops every other
      decoded image from the cache. */
  function UpdatePreloads(v: Viewer): (r: Viewer)
    requires SafeIndex(v)
    ensures SameScreen(v, r)
    ensures v.images == [] ==> r == v
    ensures v.images != [] ==>
              var prev := v.images[PrevIndex(v.index, |v.images|)];
              var next := v.images[NextIndex(v.index, |v.images|)];
              && (prev in r.cache || prev in r.loading)
              && (next in r.cache || next in r.loading)
              && r.loading == v.loading + ({prev, next} - v.cache.Keys)
              && (forall k :: k in r.cache <==> k in v.cache && k in KeepSet(v, prev, next))
              && (forall k :: k in r.cache ==> r.cache[k] == v.cache[k])
              && |r.cache| <= 3
    ensures NewRequestsOnly(v, r)
  {
    if v.images == [] then v
    else
      var len := |v.images|;
      var prev := v.images[PrevIndex(v.index, len)];
      var next := v.images[NextIndex(v.index, len)];
      var v1 := RequestLoad(v, prev);
      var v2 := RequestLoad(v1, next);
      NewRequestsChain(v, v1, v2);
      var keep := KeepSet(v, prev, next);
      var cache := map k | k in v2.cache && k in keep :: v2.cache[k];
      assert cache.Keys <= keep;
      CardinalityOfKeep(v, prev, next);
      SubsetCardinality(cache.Keys, keep);
      v2.(cache := cache)
  }

  lemma CardinalityOfKeep(v: Viewer, prev: Path, next: Path)
    ensures |KeepSet(v, prev, next)| <= 3
  {
    match v.currentPath
    case Some(c) =>
      assert KeepSet(v, prev, next) == {c} + {prev} + {next};
    case None =>
      assert KeepSet(v, prev, next) == {prev} + {next};
  }

  lemma SubsetCardinality(a: set<Path>, b: set<Path>)
    requires a <= b
    ensures |a| <= |b|
  {
    assert b == a + (b - a);
  }

  /** Shows `p`: makes it the current image, clears any error, and requests
      it and its neighbours. */
  function LoadFile(v: Viewer, p: Path, resetView: bool): (r: Viewer)
    requires SafeIndex(v)
    ensures r.currentPath == Some(p) && r.errorMsg == None
    ensures r.resetViewOnLoad == resetView
    ensures r.images == v.images && r.index == v.index
    ensures r.lastLoadedPath == v.lastLoadedPath && r.imageSize == v.imageSize
    ensures p in r.cache || p in r.loading
    ensures forall k :: k in r.cache ==> k in v.cache && r.cache[k] == v.cache[k]
    ensures v.loading <= r.loading
    ensures IsLoading(r) <==> p in v.loading || p !in v.cache
    ensures NewRequestsOnly(v, r)
  {
    var v0 := v.(currentPath := Some(p), resetViewOnLoad := resetView, errorMsg := None);
    var v1 := RequestLoad(v0, p);
    NewRequestsChain(v, v1, UpdatePreloads(v1));
    UpdatePreloads(v1)
  }

  /** Moves to the next image of the folder, wrapping to the first. */
  function NextImage(v: Viewer): (r: Viewer)
    ensures v.images == [] ==> r == v
    ensures v.images != [] ==>
              && r.images == v.images
              && r.index < |v.images|
              && r.index == (v.index + 1) % |v.images|
              && r.currentPath == Some(v.images[r.index])
              && r.errorMsg == None
              && !r.resetViewOnLoad
  {
    if v.images == [] then v
    else
      var i := NextIndex(v.index, |v.images|);
      LoadFile(v.(index := i), v.images[i], false)
  }

  /** Moves to the previous image of the folder, wrapping to the last. */
  function PrevImage(v: Viewer): (r: Viewer)
    requires SafeIndex(v)
    ensures v.images == [] ==> r == v
    ensures v.images != [] ==>
              && r.images == v.images
              && r.index < |v.images|
              && (v.index == 0 ==> r.index == |v.images| - 1)
              && (v.index > 0 ==> r.index == v.index - 1)
              && r.currentPath == Some(v.images[r.index])
              && r.errorMsg == None
              && !r.resetViewOnLoad
  {
    if v.images == [] then v
    else
      var i := PrevIndex(v.index, |v.images|);
      LoadFile(v.(index := i), v.images[i], false)
  }

  /** Opens a folder: its first image, or an error when it holds none. */
  function LoadFolder(v: Viewer, listing: seq<Folder.Entry>): (r: Viewer)
    ensures Folder.FolderImages(listing) == [] ==>
              && r.errorMsg == Some(NoImagesMessage)
              && r.currentPath == None
              && r.images == []
              && r.cache == v.cache && r.loading == v.loading && r.outbox == v.outbox
    ensures Folder.FolderImages(listing) != [] ==>
              && r.images == Folder.FolderImages(listing)
              && r.index == 0
              && r.currentPath == Some(r.images[0])
              && r.errorMsg == None
              && r.resetViewOnLoad
  {
    var images := Folder.FolderImages(listing);
    if images == [] then
      v.(images := images, errorMsg := Some(NoImagesMessage), currentPath := None)
    else
      LoadFile(v.(images := images, index := 0), images[0], true)
  }

  /** Opens anything that is not a folder: it is shown within its parent's
      image list when that list holds it, and as a one-image list otherwise
      (a path without a parent, an unreadable parent, a file that is not a
      recognised image). */
  function LoadSingle(v: Viewer, path: Path, parent: Option<seq<Folder.Entry>>): (r: Viewer)
    ensures r.index < |r.images| && r.images[r.index] == path
    ensures r.currentPath == Some(path) && r.errorMsg == None && r.resetViewOnLoad
    ensures parent.Some? && path in Folder.FolderImages(parent.value) ==>
              && r.images == Folder.FolderImages(parent.value)
              && forall j :: 0 <= j < r.index ==> r.images[j] != path
    ensures parent.None? || path !in Folder.FolderImages(parent.value) ==>
              r.images == [path] && r.index == 0
  {
    var v1 :=
      match parent
      case Some(listing) =>
        var images := Folder.FolderImages(listing);
        (match Position(images, path)
         case Some(i) => v.(images := images, index := i)
         case None => v.(images := [path], index := 0))
      case None => v.(images := [path], index := 0);
    LoadFile(v1, path, true)
  }

  /** Opens a file or a folder, as dropping it on the window or picking it
      in the file dialog does. */
  function LoadPath(v: Viewer, path: Path, kind: PathKind): (r: Viewer)
    ensures r.currentPath.Some? ==>
              && r.index < |r.images| && r.images[r.index] == r.currentPath.value
              && r.errorMsg == None && r.resetViewOnLoad
    ensures kind.Directory? ==> (r.currentPath.None? <==> Folder.FolderImages(kind.listing) == [])
    ensures kind.Directory? && r.currentPath.None? ==>
              r.errorMsg == Some(NoImagesMessage) && r.images == [] && r.outbox == v.outbox
    ensures kind.Directory? && r.currentPath.Some? ==>
              r.images == Folder.FolderImages(kind.listing) && r.index == 0
    ensures kind.File? ==> r.currentPath == Some(path)
  {
    match kind
    case Directory(listing) => LoadFolder(v, listing)
    case File(parent) => LoadSingle(v, path, parent)
  }

  /** Takes in one decoder result. Either kind of result ends the request;
      a decoded image enters the cache, and an error is shown only when it
      is about the image on screen. */
  function ApplyResult(v: Viewer, res: LoadResult): (r: Viewer)
    ensures r.loading == v.loading - {res.path}
    ensures res.Success? ==> r.cache == v.cache[res.path := res.image]
    ensures res.Error? ==> r.cache == v.cache
    ensures r.images == v.images && r.index == v.index && r.currentPath == v.currentPath
    ensures r.outbox == v.outbox
    ensures r.errorMsg != v.errorMsg ==> res.Error? && v.currentPath == Some(res.path)
    ensures res.Error? && v.currentPath == Some(res.path) ==> r.errorMsg == Some(res.message)
    ensures r.resetViewOnLoad != v.resetViewOnLoad ==>
              res.Success? && v.currentPath == Some(res.path) && !r.resetViewOnLoad
    ensures res.Success? && v.currentPath == Some(res.path) ==>
              && !r.resetViewOnLoad
              && r.lastLoadedPath == Some(res.path)
              && r.imageSize == Some((res.image.width, res.image.height))
    ensures !(res.Success? && v.currentPath == Some(res.path)) ==>
              r.lastLoadedPath == v.lastLoadedPath && r.imageSize == v.imageSize
  {
    match res
    case Success(p, image) =>
      var v1 := v.(loading := v.loading - {p}, cache := v.cache[p := image]);
      if v.currentPath == Some(p) then
        v1.(lastLoadedPath := Some(p), imageSize := Some((image.width, image.height)),
            resetViewOnLoad := false)
      else v1
    case Error(p, message) =>
      var v1 := v.(loading := v.loading - {p});
      if v.currentPath == Some(p) then v1.(errorMsg := Some(message)) else v1
  }

  /** The paths a batch of results is about. */
  function ResultPaths(results: seq<LoadResult>): set<Path> {
    set res | res in results :: res.path
  }

  /** The paths a batch of results delivers decoded images for. */
  function DecodedPaths(results: seq<LoadResult>): set<Path> {
    set res | res in results && res.Success? :: res.path
  }

  /** The paths a batch of results reports errors for. */
  function FailedPaths(results: seq<LoadResult>): set<Path> {
    set res | res in results && res.Error? :: res.path
  }

  /** No later result of the same kind (success or error) is about the same
      path as result `i`. */
  predicate LastOfKind(results: seq<LoadResult>, i: nat)
    requires i < |results|
  {
    forall j :: i < j < |results| ==>
      results[j].path != results[i].path || results[j].Success? != results[i].Success?
  }

  /** Whether `res` is about the image on screen. */
  predicate AboutCurrent(v: Viewer, res: LoadResult) {
    v.currentPath == Some(res.path)
  }

  /** Drains the decoder's answers in arrival order, as each frame does
      before anything else. Each path's last decoded image is what the cache
      holds, the last error about the image on screen is what is shown, and
      the last success for it is what was last loaded. */
  function ApplyResults(v: Viewer, results: seq<LoadResult>): (r: Viewer)
    ensures r.loading == v.loading - ResultPaths(results)
    ensures r.cache.Keys == v.cache.Keys + DecodedPaths(results)
    ensures forall k :: k in v.cache && k !in DecodedPaths(results) ==> r.cache[k] == v.cache[k]
    ensures forall i :: 0 <= i < |results| && results[i].Success? && LastOfKind(results, i) ==>
              r.cache[results[i].path] == results[i].image
    ensures r.images == v.images && r.index == v.index && r.currentPath == v.currentPath
    ensures r.outbox == v.outbox
    ensures forall i :: 0 <= i < |results| && results[i].Error? && AboutCurrent(v, results[i]) &&
                        LastOfKind(results, i) ==>
              r.errorMsg == Some(results[i].message)
    ensures v.currentPath.None? || v.currentPath.value !in FailedPaths(results) ==>
              r.errorMsg == v.errorMsg
    ensures forall i :: 0 <= i < |results| && results[i].Success? && AboutCurrent(v, results[i]) &&
                        LastOfKind(results, i) ==>
              && r.lastLoadedPath == Some(results[i].path)
              && r.imageSize == Some((results[i].image.width, results[i].image.height))
              && !r.resetViewOnLoad
    ensures v.currentPath.None? || v.currentPath.value !in DecodedPaths(results) ==>
              && r.lastLoadedPath == v.lastLoadedPath && r.imageSize == v.imageSize
              && r.resetViewOnLoad == v.resetViewOnLoad
    decreases |results|
  {
    if results == [] then v
    else
      var rest := results[1..];
      assert ResultPaths(results) == {results[0].path} + ResultPaths(rest);
      assert DecodedPaths(results) ==
             (if results[0].Success? then {results[0].path} else {}) + DecodedPaths(rest);
      assert FailedPaths(results) ==
             (if results[0].Error? then {results[0].path} else {}) + FailedPaths(rest);
      var v1 := ApplyResult(v, results[0]);
      var r := ApplyResults(v1, rest);
      forall i | 0 <= i < |results| && LastOfKind(results, i)
        ensures results[i].Success? ==> r.cache[results[i].path] == results[i].image
        ensures results[i].Error? && AboutCurrent(v, results[i]) ==> r.errorMsg == Some(results[i].message)
        ensures results[i].Success? && AboutCurrent(v, results[i]) ==>
                  && r.lastLoadedPath == Some(results[i].path)
                  && r.imageSize == Some((results[i].image.width, results[i].image.height))
                  && !r.resetViewOnLoad
      {
        LastOfKindSteps(v, results, i);
      }
      r
  }

  /** The head of a batch that is last of its kind has no later result of
      that kind about its path. */
  lemma HeadLastOfKind(results: seq<LoadResult>)
    requires results != [] && LastOfKind(results, 0)
    ensures results[0].Success? ==> results[0].path !in DecodedPaths(results[1..])
    ensures results[0].Error? ==> results[0].path !in FailedPaths(results[1..])
  {
    var rest := results[1..];
    forall res | res in rest && res.Success? == results[0].Success?
      ensures res.path != results[0].path
    {
      var j :| 0 <= j < |rest| && rest[j] == res;
      assert results[j + 1] == res;
    }
  }

  /** A later result that is last of its kind in the batch is so in the
      batch's tail. */
  lemma TailLastOfKind(results: seq<LoadResult>, i: nat)
    requires 0 < i < |results| && LastOfKind(results, i)
    ensures results[i] == results[1..][i - 1] && LastOfKind(results[1..], i - 1)
  {
    var rest := results[1..];
    forall j | i - 1 < j < |rest|
      ensures rest[j].path != rest[i - 1].path || rest[j].Success? != rest[i - 1].Success?
    {
      assert rest[j] == results[j + 1];
    }
  }

  /** The step behind `ApplyResults`' "last of its kind" clauses, for one
      result of the batch. */
  lemma LastOfKindSteps(v: Viewer, results: seq<LoadResult>, i: nat)
    requires 0 <= i < |results| && LastOfKind(results, i)
    ensures var r := ApplyResults(ApplyResult(v, results[0]), results[1..]);
            && (results[i].Success? ==> r.cache[results[i].path] == results[i].image)
            && (results[i].Error? && AboutCurrent(v, results[i]) ==> r.errorMsg == Some(results[i].message))
            && (results[i].Success? && AboutCurrent(v, results[i]) ==>
                  && r.lastLoadedPath == Some(results[i].path)
                  && r.imageSize == Some((results[i].image.width, results[i].image.height))
                  && !r.resetViewOnLoad)
    decreases |results|, 0
  {
    if i == 0 {
      HeadLastOfKind(results);
    } else {
      TailLastOfKind(results, i);
    }
  }

  /** The viewer a start-up path opens, or the empty viewer. */
  function Start(initial: Option<(Path, PathKind)>): (r: Viewer)
    ensures initial.None? ==> r == Empty
    ensures initial.Some? && initial.value.1.File? ==> r.currentPath == Some(initial.value.0)
  {
    match initial
    case None => Empty
    case Some((path, kind)) => LoadPath(Empty, path, kind)
  }
}

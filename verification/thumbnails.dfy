/** The thumbnail strip's scheduler and cache.

    One thumbnail request is in flight at a time. When none is, the next
    request goes to the missing thumbnail nearest the current image, the
    lower index winning a tie. Failed decodes are stored as placeholders so
    that they are not requested again. When more than 200 thumbnails are
    cached, the ones furthest from the current image are evicted until 100
    remain. The strip's drawing, its expand animation and the thumbnail
    decoder are not part of this model; requests go to an outbox and
    answers arrive as a sequence. */
module Thumbnails {

  import opened Base
  import Sorting

  /** A cached thumbnail texture: a decoded image, or the empty placeholder
      that records a failed decode. */
  datatype Thumb = Decoded(width: nat, height: nat) | Placeholder

  datatype ThumbCommand = LoadThumb(path: Path, size: nat)

  datatype ThumbResult =
    | ThumbOk(path: Path, width: nat, height: nat)
    | ThumbFailed(path: Path, message: string)

  datatype ThumbList = ThumbList(
    thumbnails: map<Path, Thumb>,
    loadingPath: Option<Path>,
    outbox: seq<ThumbCommand>)

  /** The edge length requested for every thumbnail. */
  const ThumbSize: nat := 128
  /** Eviction starts when the cache holds more than this many thumbnails. */
  const EvictAbove: nat := 200
  /** Eviction stops when the cache holds this many thumbnails. */
  const EvictDownTo: nat := 100
  /** Longest file name shown without shortening. */
  const NameLimit: nat := 12
  const Ellipsis: char := '…'

  const Empty: ThumbList := ThumbList(map[], None, [])

  /** The position of `p` in the folder; a path the folder does not list
      counts as position 0. */
  function FolderPosition(images: seq<Path>, p: Path): (r: nat)
    ensures p in images ==> r < |images| && images[r] == p
    ensures forall j :: 0 <= j < r && j < |images| ==> images[j] != p
    ensures p !in images ==> r == 0
  {
    match Position(images, p)
    case Some(i) => i
    case None => 0
  }

  /** How far a cached thumbnail's image is from the current one. */
  function Distance(images: seq<Path>, current: nat, p: Path): nat {
    Gap(FolderPosition(images, p), current)
  }

  /** The eviction order: further from the current image comes first. It is
      a total preorder, as a sort comparison must be; a strictly further
      path always precedes a nearer one, and equally far paths tie. */
  function FurthestFirst(images: seq<Path>, current: nat): (r: (Path, Path) -> bool)
    ensures Sorting.TotalPreorder(r)
    ensures forall a, b :: Distance(images, current, a) > Distance(images, current, b) ==> !r(b, a)
    ensures forall a, b :: Distance(images, current, a) == Distance(images, current, b) ==> r(a, b)
  {
    (a: Path, b: Path) => Distance(images, current, a) >= Distance(images, current, b)
  }

  /** `order` lists every cached path exactly once (the hash map's
      iteration order, which the model leaves open). */
  ghost predicate Enumerates(order: seq<Path>, m: map<Path, Thumb>) {
    Distinct(order) && forall p :: p in order <==> p in m
  }

  lemma {:induction false} DistinctCount(s: seq<Path>)
    requires Distinct(s)
    ensures |set p | p in s| == |s|
  {
    if s != [] {
      DistinctCount(s[1..]);
      assert (set p | p in s) == {s[0]} + (set p | p in s[1..]);
    }
  }

  /** The eviction loop: removes the head of `keys` from the cache and
      drops it from `keys`, until 100 thumbnails remain. `keys` always
      holds exactly the paths still cached, so it never runs dry while the
      cache is over the target, and the loop stops after removing the
      first `n` keys. */
  method DropFurthest(thumbs: map<Path, Thumb>, sorted: seq<Path>)
    returns (r: map<Path, Thumb>, ghost n: nat)
    requires Distinct(sorted) && |sorted| == |thumbs|
    requires forall i :: 0 <= i < |sorted| ==> sorted[i] in thumbs
    ensures |thumbs| >= EvictDownTo ==> |r| == EvictDownTo
    ensures |thumbs| < EvictDownTo ==> r == thumbs
    ensures n <= |sorted|
    ensures forall i :: 0 <= i < n ==> sorted[i] !in r
    ensures forall i :: n <= i < |sorted| ==> sorted[i] in r
    ensures forall p :: p in r ==> p in thumbs && r[p] == thumbs[p]
  {
    r := thumbs;
    var keys := sorted;
    n := 0;
    while |r| > EvictDownTo
      invariant 0 <= n <= |sorted| && keys == sorted[n..]
      invariant forall i :: 0 <= i < n ==> sorted[i] !in r
      invariant forall i :: n <= i < |sorted| ==> sorted[i] in r
      invariant forall p :: p in r ==> p in thumbs && r[p] == thumbs[p]
      invariant |r| == |sorted| - n
      invariant |r| >= EvictDownTo || r == thumbs
      decreases |r|
    {
      ghost var before := r;
      ghost var gone := sorted[n];
      assert keys[0] == gone && gone in r;
      if keys != [] {
        r := r - {keys[0]};
      }
      assert r.Keys == before.Keys - {gone};
      assert |r| == |before| - 1;
      keys := keys[1..];
      n := n + 1;
    }
  }

  /** Sorting an enumeration of the cache keys yields each key once. */
  lemma SortedEnumeration(thumbs: map<Path, Thumb>, order: seq<Path>, sorted: seq<Path>)
    requires Enumerates(order, thumbs) && multiset(sorted) == multiset(order)
    ensures Distinct(sorted) && |sorted| == |thumbs|
    ensures forall p :: p in sorted <==> p in thumbs
  {
    Sorting.PermutationKeepsDistinct(order, sorted);
    DistinctCount(order);
    assert (set p | p in order) == thumbs.Keys;
    assert |sorted| == |multiset(sorted)| == |order|;
    forall p
      ensures p in thumbs <==> p in sorted
    {
      assert p in order <==> p in multiset(order);
      assert p in sorted <==> p in multiset(sorted);
    }
  }

  /** Shrinks an over-full cache: when it holds more than 200 thumbnails,
      the paths are sorted furthest first and the furthest removed until
      100 remain. */
  method Evict(thumbs: map<Path, Thumb>, order: seq<Path>, images: seq<Path>, current: nat)
    returns (r: map<Path, Thumb>)
    requires Enumerates(order, thumbs)
    ensures |thumbs| <= EvictAbove ==> r == thumbs
    ensures |thumbs| > EvictAbove ==> |r| == EvictDownTo
    ensures forall p :: p in r ==> p in thumbs && r[p] == thumbs[p]
    ensures forall e, k :: e in thumbs && e !in r && k in r ==>
              Distance(images, current, e) >= Distance(images, current, k)
  {
    r := thumbs;
    if |thumbs| > EvictAbove {
      var le := FurthestFirst(images, current);
      var sorted := Sorting.Sort(order, le);
      SortedEnumeration(thumbs, order, sorted);
      ghost var n;
      r, n := DropFurthest(thumbs, sorted);
      EvictedAreFurther(thumbs, r, sorted, n, images, current);
    }
  }

  /** Removing a prefix of the furthest-first order leaves no kept path
      further away than an evicted one. */
  lemma EvictedAreFurther(thumbs: map<Path, Thumb>, r: map<Path, Thumb>, sorted: seq<Path>, n: nat,
                          images: seq<Path>, current: nat)
    requires Sorting.SortedBy(sorted, FurthestFirst(images, current))
    requires forall p :: p in sorted <==> p in thumbs
    requires n <= |sorted|
    requires forall i :: 0 <= i < n ==> sorted[i] !in r
    requires forall i :: n <= i < |sorted| ==> sorted[i] in r
    requires forall p :: p in r ==> p in thumbs
    ensures forall e, k :: e in thumbs && e !in r && k in r ==>
              Distance(images, current, e) >= Distance(images, current, k)
  {
    forall e, k | e in thumbs && e !in r && k in r
      ensures Distance(images, current, e) >= Distance(images, current, k)
    {
      var i :| 0 <= i < |sorted| && sorted[i] == e;
      var j :| 0 <= j < |sorted| && sorted[j] == k;
      assert i < n <= j;
      assert FurthestFirst(images, current)(sorted[i], sorted[j]);
    }
  }

  /** `k` indexes the missing thumbnail nearest `current`, the lowest index
      among equally near ones. */
  ghost predicate NearestMissingAt(images: seq<Path>, have: map<Path, Thumb>, current: nat, k: nat) {
    && k < |images|
    && images[k] !in have
    && forall j :: 0 <= j < |images| && images[j] !in have ==>
         Gap(k, current) < Gap(j, current) || (Gap(k, current) == Gap(j, current) && k <= j)
  }

  /** There is at most one nearest missing thumbnail. */
  lemma NearestMissingUnique(images: seq<Path>, have: map<Path, Thumb>, current: nat, k1: nat, k2: nat)
    requires NearestMissingAt(images, have, current, k1)
    requires NearestMissingAt(images, have, current, k2)
    ensures k1 == k2
  {
  }

  /** The scan for the nearest missing thumbnail. A strictly smaller
      distance is needed to replace the best so far, so the first of equally
      near candidates stays. No best distance yet stands for the scan's
      starting value, the largest machine word, which exceeds every distance
      between two indices. */
  method NearestMissing(images: seq<Path>, have: map<Path, Thumb>, current: nat)
    returns (best: Option<nat>)
    ensures best.None? <==> forall i :: 0 <= i < |images| ==> images[i] in have
    ensures best.Some? ==> NearestMissingAt(images, have, current, best.value)
  {
    best := None;
    var minDist: Option<nat> := None;
    var i := 0;
    while i < |images|
      invariant 0 <= i <= |images|
      invariant best.None? <==> minDist.None?
      invariant best.None? ==> forall j :: 0 <= j < i ==> images[j] in have
      invariant best.Some? ==>
                  && best.value < i
                  && images[best.value] !in have
                  && minDist == Some(Gap(best.value, current))
                  && forall j :: 0 <= j < i && images[j] !in have ==>
                       Gap(best.value, current) < Gap(j, current) ||
                       (Gap(best.value, current) == Gap(j, current) && best.value <= j)
    {
      if images[i] !in have {
        var dist := Gap(i, current);
        if minDist.None? || dist < minDist.value {
          minDist := Some(dist);
          best := Some(i);
        }
      }
      i := i + 1;
    }
  }

  /** Starts the next thumbnail request, unless one is in flight. */
  method TryLoadNext(t: ThumbList, images: seq<Path>, current: nat) returns (r: ThumbList)
    ensures r.thumbnails == t.thumbnails
    ensures t.loadingPath.Some? ==> r == t
    ensures t.loadingPath.None? ==>
              (r.loadingPath.None? <==> forall i :: 0 <= i < |images| ==> images[i] in t.thumbnails)
    ensures r.loadingPath.None? ==> r == t
    ensures t.loadingPath.None? && r.loadingPath.Some? ==>
              && r.outbox == t.outbox + [LoadThumb(r.loadingPath.value, ThumbSize)]
              && exists k :: 0 <= k < |images| && NearestMissingAt(images, t.thumbnails, current, k) &&
                             images[k] == r.loadingPath.value
  {
    r := t;
    if t.loadingPath.None? && images != [] {
      var best := NearestMissing(images, t.thumbnails, current);
      match best {
        case Some(idx) =>
          var path := images[idx];
          r := t.(loadingPath := Some(path), outbox := t.outbox + [LoadThumb(path, ThumbSize)]);
        case None =>
      }
    }
  }

  /** Called when the strip is shown for a folder: trims the cache, then
      schedules the next request. An empty folder changes nothing. */
  method UpdateFolder(t: ThumbList, images: seq<Path>, current: nat, order: seq<Path>)
    returns (r: ThumbList)
    requires Enumerates(order, t.thumbnails)
    ensures images == [] ==> r == t
    ensures images != [] && |t.thumbnails| <= EvictAbove ==> r.thumbnails == t.thumbnails
    ensures images != [] && |t.thumbnails| > EvictAbove ==> |r.thumbnails| == EvictDownTo
    ensures forall p :: p in r.thumbnails ==> p in t.thumbnails && r.thumbnails[p] == t.thumbnails[p]
    ensures forall e, k :: e in t.thumbnails && e !in r.thumbnails && k in r.thumbnails ==>
              Distance(images, current, e) >= Distance(images, current, k)
    ensures t.loadingPath.Some? ==> r.loadingPath == t.loadingPath && r.outbox == t.outbox
    ensures images != [] && t.loadingPath.None? ==>
              (r.loadingPath.None? <==> forall i :: 0 <= i < |images| ==> images[i] in r.thumbnails)
    ensures r.loadingPath.None? ==> r.outbox == t.outbox
    ensures t.loadingPath.None? && r.loadingPath.Some? ==>
              && r.outbox == t.outbox + [LoadThumb(r.loadingPath.value, ThumbSize)]
              && exists k :: 0 <= k < |images| && NearestMissingAt(images, r.thumbnails, current, k) &&
                             images[k] == r.loadingPath.value
  {
    if images == [] {
      return t;
    }
    var kept := Evict(t.thumbnails, order, images, current);
    r := TryLoadNext(t.(thumbnails := kept), images, current);
  }

  /** What a result stores in the cache. */
  function ThumbOf(res: ThumbResult): Thumb {
    match res
    case ThumbOk(_, w, h) => Decoded(w, h)
    case ThumbFailed(_, _) => Placeholder
  }

  function ResultPaths(results: seq<ThumbResult>): set<Path> {
    set res | res in results :: res.path
  }

  /** No later result is about the same path as result `i`. */
  predicate LastFor(results: seq<ThumbResult>, i: nat)
    requires i < |results|
  {
    forall j :: i < j < |results| ==> results[j].path != results[i].path
  }

  /** The cache after storing a batch of results in arrival order; the last
      result for a path decides its entry. */
  function Received(m: map<Path, Thumb>, results: seq<ThumbResult>): (r: map<Path, Thumb>)
    ensures r.Keys == m.Keys + ResultPaths(results)
    ensures forall p :: p in m && p !in ResultPaths(results) ==> r[p] == m[p]
    ensures forall i :: 0 <= i < |results| && LastFor(results, i) ==>
              r[results[i].path] == ThumbOf(results[i])
    decreases |results|
  {
    if results == [] then m
    else
      var rest := results[1..];
      assert ResultPaths(results) == {results[0].path} + ResultPaths(rest);
      var r := Received(m[results[0].path := ThumbOf(results[0])], rest);
      forall i | 0 <= i < |results| && LastFor(results, i)
        ensures r[results[i].path] == ThumbOf(results[i])
      {
        if i == 0 {
          forall res | res in rest
            ensures res.path != results[0].path
          {
            var j :| 0 <= j < |rest| && rest[j] == res;
            assert results[j + 1] == res;
          }
        } else {
          assert results[i] == rest[i - 1];
          assert LastFor(rest, i - 1) by {
            forall j | i - 1 < j < |rest|
              ensures rest[j].path != rest[i - 1].path
            {
              assert rest[j] == results[j + 1];
            }
          }
        }
      }
      r
  }

  /** Stores every received thumbnail, failures as placeholders; when
      anything arrived, the in-flight request is over and the next one is
      scheduled. A path that has just been answered is never the next
      request. */
  method ProcessResults(t: ThumbList, results: seq<ThumbResult>, images: seq<Path>, current: nat)
    returns (r: ThumbList)
    ensures results == [] ==> r == t
    ensures r.thumbnails == Received(t.thumbnails, results)
    ensures forall res :: res in results ==> res.path in r.thumbnails
    ensures results != [] && r.loadingPath.Some? ==> r.loadingPath.value !in ResultPaths(results)
    ensures results != [] ==>
              (r.loadingPath.None? <==> forall i :: 0 <= i < |images| ==> images[i] in r.thumbnails)
    ensures results != [] && r.loadingPath.Some? ==>
              exists k :: 0 <= k < |images| && NearestMissingAt(images, r.thumbnails, current, k) &&
                          images[k] == r.loadingPath.value
    ensures r.loadingPath.None? ==> r.outbox == t.outbox
    ensures results != [] && r.loadingPath.Some? ==>
              r.outbox == t.outbox + [LoadThumb(r.loadingPath.value, ThumbSize)]
  {
    if results == [] {
      return t;
    }
    var received := Received(t.thumbnails, results);
    r := TryLoadNext(t.(thumbnails := received, loadingPath := None), images, current);
  }

  /** The file name shown under a thumbnail: names longer than 12
      characters keep their first 11 and end in an ellipsis. */
  function DisplayName(name: string): (r: string)
    ensures |r| <= NameLimit
    ensures |name| <= NameLimit ==> r == name
    ensures |name| > NameLimit ==>
              |r| == NameLimit && r[NameLimit - 1] == Ellipsis &&
              r[..NameLimit - 1] == name[..NameLimit - 1]
  {
    if |name| > NameLimit then name[..NameLimit - 1] + [Ellipsis] else name
  }

  /** Shortening a shown name again leaves it as it is. */
  lemma DisplayNameIdempotent(name: string)
    ensures DisplayName(DisplayName(name)) == DisplayName(name)
  {
  }

  /** Two different names are shown alike only when at least one of them
      was shortened and they agree on their first 11 characters. */
  lemma DisplayNameCollision(a: string, b: string)
    requires a != b && DisplayName(a) == DisplayName(b)
    ensures |a| > NameLimit || |b| > NameLimit
    ensures a[..NameLimit - 1] == b[..NameLimit - 1]
  {
    if |a| > NameLimit {
      assert DisplayName(a)[..NameLimit - 1] == a[..NameLimit - 1];
    } else {
      assert DisplayName(b)[..NameLimit - 1] == b[..NameLimit - 1];
    }
  }
}

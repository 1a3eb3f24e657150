/** The folder scan of the viewer: which directory entries count as images,
    and the sorted list of them that becomes the folder being browsed. The
    directory listing itself (reading the directory, asking whether an
    entry is a regular file, splitting off its extension) is an input. */
module Folder {

  import opened Base
  import Sorting

  /** One directory entry: its path, whether it is a regular file, and its
      extension as text (None when there is none or it is not valid text). */
  datatype Entry = Entry(path: Path, isFile: bool, extension: Option<string>)

  /** The recognised extensions, in lower case. */
  const ImageExtensions: set<string> :=
    {"jpg", "jpeg", "png", "gif", "webp", "bmp", "ico", "tiff", "avif"}

  function LowerChar(c: char): char {
    if 'A' <= c <= 'Z' then (c as int + 32) as char else c
  }

  function ToLower(s: string): (r: string)
    ensures |r| == |s|
    ensures forall i :: 0 <= i < |s| ==> r[i] == LowerChar(s[i])
  {
    if s == [] then [] else [LowerChar(s[0])] + ToLower(s[1..])
  }

  /** `a` and `b` spell the same word up to ASCII case. */
  predicate SameIgnoringCase(a: string, b: string) {
    |a| == |b| && forall i :: 0 <= i < |a| ==> LowerChar(a[i]) == LowerChar(b[i])
  }

  /** An entry is shown when it is a regular file whose extension, lower-cased,
      is one of the recognised ones; that is, when its extension matches one of
      them in any mix of upper and lower case. */
  function IsImage(e: Entry): (r: bool)
    ensures r <==> e.isFile && e.extension.Some? &&
                   exists x :: x in ImageExtensions && SameIgnoringCase(e.extension.value, x)
  {
    ExtensionsAreLowerCase();
    if e.isFile && e.extension.Some? then
      var ext := e.extension.value;
      assert forall x :: x in ImageExtensions && SameIgnoringCase(ext, x) ==> ToLower(ext) == x;
      assert ToLower(ext) in ImageExtensions ==> SameIgnoringCase(ext, ToLower(ext));
      ToLower(ext) in ImageExtensions
    else false
  }

  /** The recognised extensions are written in lower case. */
  lemma ExtensionsAreLowerCase()
    ensures forall x :: x in ImageExtensions ==> forall i :: 0 <= i < |x| ==> LowerChar(x[i]) == x[i]
  {
  }

  /** The paths of the image entries, in listing order. */
  function ImagePaths(listing: seq<Entry>): (r: seq<Path>)
    ensures |r| <= |listing|
    ensures forall i :: 0 <= i < |listing| && IsImage(listing[i]) ==> listing[i].path in r
    ensures forall p :: p in r ==> exists i :: 0 <= i < |listing| && IsImage(listing[i]) && listing[i].path == p
  {
    if listing == [] then []
    else
      var rest := ImagePaths(listing[1..]);
      assert forall i :: 1 <= i < |listing| ==> listing[i] == listing[1..][i - 1];
      if IsImage(listing[0]) then [listing[0].path] + rest else rest
  }

  /** The folder's image list: the image entries, sorted by path. */
  function FolderImages(listing: seq<Entry>): (r: seq<Path>)
    ensures Sorting.SortedBy(r, PathLe)
    ensures multiset(r) == multiset(ImagePaths(listing))
  {
    PathOrderIsTotal();
    Sorting.Sort(ImagePaths(listing), PathLe)
  }

  lemma PathOrderIsTotal()
    ensures Sorting.TotalPreorder(PathLe)
  {
    forall a, b
      ensures PathLe(a, b) || PathLe(b, a)
    {
      PathLeTotal(a, b);
    }
    forall a, b, c | PathLe(a, b) && PathLe(b, c)
      ensures PathLe(a, c)
    {
      PathLeTransitive(a, b, c);
    }
  }

  /** A path is listed exactly when some image entry carries it. */
  lemma FolderImagesMembership(listing: seq<Entry>, p: Path)
    ensures p in FolderImages(listing) <==>
            exists i :: 0 <= i < |listing| && IsImage(listing[i]) && listing[i].path == p
  {
    var r := FolderImages(listing);
    assert p in r <==> p in multiset(r);
    assert p in ImagePaths(listing) <==> p in multiset(ImagePaths(listing));
  }

  /** The list is in strictly increasing path order when the listing names
      each path once, as a directory listing does. */
  lemma FolderImagesStrictlyIncreasing(listing: seq<Entry>)
    requires Distinct(ImagePaths(listing))
    ensures forall i, j :: 0 <= i < j < |FolderImages(listing)| ==>
              PathLe(FolderImages(listing)[i], FolderImages(listing)[j]) &&
              FolderImages(listing)[i] != FolderImages(listing)[j]
  {
    Sorting.PermutationKeepsDistinct(ImagePaths(listing), FolderImages(listing));
  }

  /** The extension test ignores ASCII case and rejects near misses. */
  lemma ExtensionExamples()
    ensures IsImage(Entry("a.JPG", true, Some("JPG")))
    ensures IsImage(Entry("b.Tiff", true, Some("Tiff")))
    ensures !IsImage(Entry("c.tif", true, Some("tif")))
    ensures !IsImage(Entry("d.png", false, Some("png")))
    ensures !IsImage(Entry("jpg", true, None))
  {
    assert ToLower("JPG") == "jpg";
    assert ToLower("Tiff") == "tiff";
    assert ToLower("tif") == "tif";
  }
}

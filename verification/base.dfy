/** Shared vocabulary of the viewer model: optional values, paths, their
    ordering, and the first-occurrence search that Rust's
    `Iterator::position` performs. */
module Base {

  /** Rust's `Option`: a value that may be absent. */
  datatype Option<T> = None | Some(value: T)

  /** A file-system path, represented by its text. */
  type Path = string

  /** True if no element of `s` occurs twice. */
  ghost predicate Distinct<T>(s: seq<T>) {
    forall i, j :: 0 <= i < j < |s| ==> s[i] != s[j]
  }

  /** The index of the first occurrence of `x` in `s`, or None. */
  function Position<T(==)>(s: seq<T>, x: T): (r: Option<nat>)
    ensures r.None? <==> x !in s
    ensures r.Some? ==> r.value < |s| && s[r.value] == x
    ensures r.Some? ==> forall j :: 0 <= j < r.value ==> s[j] != x
  {
    if |s| == 0 then None
    else if s[0] == x then Some(0)
    else
      match Position(s[1..], x)
      case None => None
      case Some(i) => Some(i + 1)
  }

  /** The absolute difference of two indices. */
  function Gap(i: nat, j: nat): nat {
    if i >= j then i - j else j - i
  }

  /** Paths are ordered lexicographically by character code. Entries of one
      directory listing share their parent, so this agrees with the
      component-wise order of Rust's `Path` on them. */
  predicate PathLe(a: Path, b: Path) {
    |a| == 0 || (|b| > 0 && (a[0] < b[0] || (a[0] == b[0] && PathLe(a[1..], b[1..]))))
  }

  lemma {:induction false} PathLeTotal(a: Path, b: Path)
    ensures PathLe(a, b) || PathLe(b, a)
    decreases |a|
  {
    if |a| > 0 && |b| > 0 && a[0] == b[0] {
      PathLeTotal(a[1..], b[1..]);
    }
  }

  lemma {:induction false} PathLeTransitive(a: Path, b: Path, c: Path)
    requires PathLe(a, b) && PathLe(b, c)
    ensures PathLe(a, c)
    decreases |a|
  {
    if |a| > 0 && a[0] == b[0] && b[0] == c[0] {
      PathLeTransitive(a[1..], b[1..], c[1..]);
    }
  }

  lemma {:induction false} PathLeAntisymmetric(a: Path, b: Path)
    requires PathLe(a, b) && PathLe(b, a)
    ensures a == b
    decreases |a|
  {
    if |a| > 0 {
      PathLeAntisymmetric(a[1..], b[1..]);
      assert a == [a[0]] + a[1..];
      assert b == [b[0]] + b[1..];
    }
  }
}

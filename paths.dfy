/** std::filesystem::path as the object store uses it: a relative path is
    the sequence of its components, `parent_path()` drops the last one,
    `filename()` is the last one, and paths compare component by
    component (path::compare), each component as an unsigned byte string. */
module Paths {
  import opened Bytes
  import opened Text

  type Path = seq<Bytes>

  /** The paths the staging index holds: no empty component, no slash
      inside a component. */
  predicate ValidPath(p: Path) {
    forall k | 0 <= k < |p| :: p[k] != [] && SLASH !in p[k]
  }

  /** parent_path(): the path without its last component; "" stays "". */
  function ParentPath(p: Path): (r: Path)
    ensures p != [] ==> |r| == |p| - 1 && r == p[..|p| - 1]
    ensures p == [] ==> r == []
  {
    if p == [] then [] else p[..|p| - 1]
  }

  /** filename(): the last component; empty for "". */
  function FileName(p: Path): (r: Bytes)
    ensures p != [] ==> r == p[|p| - 1]
    ensures p == [] ==> r == []
  {
    if p == [] then [] else p[|p| - 1]
  }

  /** The text of a path: its components joined by '/'. */
  function PathText(p: Path): Bytes {
    Join(p, SLASH)
  }

  /** path(s) for a text that names a relative path. */
  function ParsePath(s: Bytes): Path {
    if s == [] then [] else SplitOn(s, SLASH)
  }

  /** path::compare: component-wise lexicographic order, a proper prefix
      first. */
  predicate PathLess(a: Path, b: Path) {
    if a == [] then b != []
    else b != [] && (Less(a[0], b[0]) || (a[0] == b[0] && PathLess(a[1..], b[1..])))
  }

  /** A non-root path is its parent followed by its file name. */
  lemma ParentAndFileName(p: Path)
    requires p != []
    ensures p == ParentPath(p) + [FileName(p)]
  {
  }

  lemma {:induction false} JoinNonEmpty(p: Path)
    requires ValidPath(p) && p != []
    ensures PathText(p) != []
  {
    if |p| > 1 {
      assert PathText(p) == p[0] + [SLASH] + Join(p[1..], SLASH);
    }
  }

  /** path(text(p)) == p for a valid path. */
  lemma ParsePathText(p: Path)
    requires ValidPath(p)
    ensures ParsePath(PathText(p)) == p
  {
    if p != [] {
      JoinNonEmpty(p);
      SplitJoin(p, SLASH);
    }
  }

  lemma {:induction false} PathLessIrreflexive(a: Path)
    ensures !PathLess(a, a)
  {
    if a != [] {
      LessIrreflexive(a[0]);
      PathLessIrreflexive(a[1..]);
    }
  }

  lemma {:induction false} PathLessTransitive(a: Path, b: Path, c: Path)
    requires PathLess(a, b) && PathLess(b, c)
    ensures PathLess(a, c)
  {
    if a != [] {
      if Less(a[0], b[0]) && Less(b[0], c[0]) {
        LessTransitive(a[0], b[0], c[0]);
      } else if a[0] == b[0] && b[0] == c[0] {
        PathLessTransitive(a[1..], b[1..], c[1..]);
      }
    }
  }

  lemma {:induction false} PathLessTotal(a: Path, b: Path)
    ensures a == b || PathLess(a, b) || PathLess(b, a)
  {
    if a != [] && b != [] {
      LessTotal(a[0], b[0]);
      if a[0] == b[0] {
        PathLessTotal(a[1..], b[1..]);
        if a[1..] == b[1..] {
          assert a == [a[0]] + a[1..] && b == [b[0]] + b[1..];
        }
      }
    }
  }

  lemma {:induction false} PathLessAsymmetric(a: Path, b: Path)
    requires PathLess(a, b)
    ensures !PathLess(b, a)
  {
    if a != [] && b != [] {
      if Less(a[0], b[0]) {
        LessAsymmetric(a[0], b[0]);
      } else {
        PathLessAsymmetric(a[1..], b[1..]);
      }
    }
  }

  /** A proper prefix comes first; in particular a parent precedes its
      children and "" precedes every other path. */
  lemma {:induction false} PrefixPathLess(a: Path, b: Path)
    requires |a| < |b| && b[..|a|] == a
    ensures PathLess(a, b)
  {
    if a != [] {
      assert b[1..][..|a| - 1] == a[1..];
      PrefixPathLess(a[1..], b[1..]);
    }
  }

  lemma ParentLess(p: Path)
    requires p != []
    ensures PathLess(ParentPath(p), p)
  {
    PrefixPathLess(ParentPath(p), p);
  }
}

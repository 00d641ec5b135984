/** Path names: POSIX `os.path.splitext` and `os.path.join`, and the
    collision-avoiding choice of an output path
    (`MaybeOverwrite.maybe_overwrite` in 1l-tools.py). The file system is a
    finite set of existing paths. */
module Paths {
  import opened Text

  /** Python's `s.rfind(c)`: the last index of `c`, or -1. */
  function RFind(s: string, c: char): (k: int)
    ensures -1 <= k < |s|
    ensures k >= 0 ==> s[k] == c
    ensures forall i :: k < i < |s| ==> s[i] != c
  {
    if |s| == 0 then -1
    else if s[|s| - 1] == c then |s| - 1
    else RFind(s[..|s| - 1], c)
  }

  /** Whether the characters from `from` up to `to` (exclusive) are all dots. */
  predicate AllDots(p: string, from: int, to: int)
    requires 0 <= from <= to <= |p|
  {
    forall i :: from <= i < to ==> p[i] == '.'
  }

  /** POSIX `os.path.splitext(p)`: the extension runs from the last dot of
      the last path component to the end, unless everything before that dot
      in the component is a dot as well (so ".bashrc" has no extension). */
  function SplitExt(p: string): (r: (string, string))
    ensures r.0 + r.1 == p
    ensures r.1 == [] || (r.1[0] == '.' && '.' !in r.1[1..] && '/' !in r.1)
    ensures r.1 != [] ==> exists j :: 0 <= j < |r.0| && r.0[j] != '.' && '/' !in r.0[j..]
    ensures forall i, j :: 0 <= j < i < |p| && p[i] == '.' && p[j] != '.' && '/' !in p[j..] ==> r.1 != []
  {
    var sepIndex := RFind(p, '/');
    var dotIndex := RFind(p, '.');
    if dotIndex > sepIndex && !AllDots(p, sepIndex + 1, dotIndex) then
      var j :| sepIndex + 1 <= j < dotIndex && p[j] != '.';
      assert p[..dotIndex][j..] == p[j..dotIndex];
      assert p[dotIndex..][1..] == p[dotIndex + 1..];
      (p[..dotIndex], p[dotIndex..])
    else
      (p, [])
  }

  /** POSIX `os.path.join(a, b)` for two components. */
  function PathJoin(a: string, b: string): (r: string)
    ensures |b| > 0 && b[0] == '/' ==> r == b
    ensures (|b| == 0 || b[0] != '/') ==> |r| >= |a| + |b| && r[..|a|] == a && r[|r| - |b|..] == b
    ensures (|b| == 0 || b[0] != '/') ==> (|r| == |a| + |b| + 1 <==> |a| > 0 && a[|a| - 1] != '/')
    ensures (|b| == 0 || b[0] != '/') ==> |r| <= |a| + |b| + 1
    ensures |r| == |a| + |b| + 1 ==> r[|a|] == '/'
    ensures |b| > 0 && '/' !in b ==> r[|r| - |b|..] == b && (|r| == |b| || r[|r| - |b| - 1] == '/')
  {
    if |b| > 0 && b[0] == '/' then b
    else if |a| == 0 || a[|a| - 1] == '/' then a + b
    else a + "/" + b
  }

  // ---------------------------------------------------------------------------
  // maybe_overwrite
  // ---------------------------------------------------------------------------

  /** The i-th alternative name: `'{}({}){}'.format(prefix, i, ext)`. */
  function Numbered(prefix: string, i: nat, ext: string): string {
    prefix + "(" + NatToString(i) + ")" + ext
  }

  lemma DigitsBeforeParen(a: string, b: string, x: string, y: string)
    requires AllDigits(a) && AllDigits(b)
    requires a + ")" + x == b + ")" + y
    ensures a == b
  {
    var s := a + ")" + x;
    FirstParen(a, x);
    FirstParen(b, y);
    assert |a| == |b|;
    assert a == s[..|a|];
    assert b == s[..|b|];
  }

  /** In digits followed by ")", the first ")" is right after the digits. */
  lemma FirstParen(a: string, x: string)
    requires AllDigits(a)
    ensures (a + ")" + x)[|a|] == ')'
    ensures forall i :: 0 <= i < |a| ==> (a + ")" + x)[i] != ')'
  {
    var s := a + ")" + x;
    forall i | 0 <= i < |a|
      ensures s[i] != ')'
    {
      assert s[i] == a[i];
    }
  }

  /** Different numbers give different names. */
  lemma NumberedInjective(prefix: string, i: nat, j: nat, ext: string)
    requires Numbered(prefix, i, ext) == Numbered(prefix, j, ext)
    ensures i == j
  {
    var a, b := NatToString(i), NatToString(j);
    var l := prefix + "(" + a + ")" + ext;
    var r := prefix + "(" + b + ")" + ext;
    assert l[|prefix| + 1..] == a + ")" + ext;
    assert r[|prefix| + 1..] == b + ")" + ext;
    DigitsBeforeParen(a, b, ext, ext);
    NatToStringInjective(i, j);
  }

  /** The names tried before number i: numbers 1 .. i - 1. */
  function Tried(prefix: string, i: nat, ext: string): (t: set<string>)
    ensures forall j :: 1 <= j < i ==> Numbered(prefix, j, ext) in t
  {
    if i <= 1 then {} else Tried(prefix, i - 1, ext) + {Numbered(prefix, i - 1, ext)}
  }

  /** Since numbered names are distinct, i - 1 names were tried before number i. */
  lemma {:induction false} TriedCount(prefix: string, i: nat, ext: string)
    ensures |Tried(prefix, i, ext)| == if i <= 1 then 0 else i - 1
  {
    if i > 1 {
      TriedCount(prefix, i - 1, ext);
      if Numbered(prefix, i - 1, ext) in Tried(prefix, i - 1, ext) {
        TriedOnlyBelow(prefix, i - 1, ext, i - 1);
      }
    }
  }

  lemma {:induction false} TriedOnlyBelow(prefix: string, i: nat, ext: string, k: nat)
    requires Numbered(prefix, k, ext) in Tried(prefix, i, ext)
    ensures 1 <= k < i
  {
    if i > 1 {
      if Numbered(prefix, k, ext) == Numbered(prefix, i - 1, ext) {
        NumberedInjective(prefix, k, i - 1, ext);
      } else {
        TriedOnlyBelow(prefix, i - 1, ext, k);
      }
    }
  }

  /** `maybe_overwrite(fpath, inplace)`: the path written to. Unless the
      path exists and `inplace` is false it is `fpath` itself; otherwise it
      is `prefix(i)ext` for the least i >= 1 whose name does not exist. The
      search ends because every tried name exists and they are all distinct,
      so at most |existing| + 1 numbers are tried. */
  method MaybeOverwrite(fpath: string, inplace: bool, existing: set<string>) returns (target: string)
    ensures inplace || fpath !in existing ==> target == fpath
    ensures !inplace && fpath in existing ==>
              exists i: nat :: i >= 1 && target == Numbered(SplitExt(fpath).0, i, SplitExt(fpath).1)
                && forall j :: 1 <= j < i ==> Numbered(SplitExt(fpath).0, j, SplitExt(fpath).1) in existing
    ensures target == fpath || target !in existing
  {
    var (prefix, ext) := SplitExt(fpath);
    target := fpath;
    if fpath in existing && !inplace {
      var i: nat := 1;
      TriedCount(prefix, i, ext);
      while Numbered(prefix, i, ext) in existing
        invariant i >= 1
        invariant Tried(prefix, i, ext) <= existing
        invariant |Tried(prefix, i, ext)| == i - 1
        decreases |existing| - (i - 1)
      {
        assert Tried(prefix, i + 1, ext) <= existing;
        TriedCount(prefix, i + 1, ext);
        assert |Tried(prefix, i + 1, ext)| <= |existing| by {
          CardinalityOfSubset(Tried(prefix, i + 1, ext), existing);
        }
        i := i + 1;
      }
      target := Numbered(prefix, i, ext);
    }
  }

  lemma CardinalityOfSubset<T>(a: set<T>, b: set<T>)
    requires a <= b
    ensures |a| <= |b|
  {
    assert b == a + (b - a);
  }

  /** A file name with a one-dot extension splits at that dot. */
  lemma SplitExtOfName(base: string, ext: string)
    requires |base| > 0 && '.' !in base && '/' !in base
    requires '.' !in ext && '/' !in ext
    ensures SplitExt(base + "." + ext) == (base, "." + ext)
  {
    var p := base + "." + ext;
    assert p[|base|] == '.';
    assert p[0] == base[0];
    assert '/' !in p by {
      assert p == base + ("." + ext);
    }
    var r := SplitExt(p);
    assert r.1 != [];
    assert r.1 == p[|r.0|..];
    assert r.0 == p[..|r.0|];
  }
}

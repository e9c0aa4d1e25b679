/**
 * Path strings as the organizer handles them on Windows: `os.path.basename`,
 * `os.path.splitext`, `os.path.join`, `str(i)` and the `stem(i)ext` names of
 * the duplicates folder.
 */
module Paths {
  import opened Dates

  type Path = string

  /** Both separators Windows accepts. */
  predicate IsSep(c: char) {
    c == '\\' || c == '/'
  }

  predicate NoSep(s: string) {
    forall i :: 0 <= i < |s| ==> !IsSep(s[i])
  }

  /** `os.path.basename`: what follows the last separator. */
  function BaseName(p: Path): (r: string)
    ensures NoSep(r) && |r| <= |p|
  {
    if p == [] then []
    else if IsSep(p[|p| - 1]) then []
    else BaseName(p[..|p| - 1]) + [p[|p| - 1]]
  }

  /** The base name is the longest separator-free suffix of the path. */
  lemma {:induction false} BaseNameIsLastComponent(p: Path)
    ensures BaseName(p) == p[|p| - |BaseName(p)|..]
    ensures |BaseName(p)| < |p| ==> IsSep(p[|p| - |BaseName(p)| - 1])
  {
    if p != [] && !IsSep(p[|p| - 1]) {
      var q := p[..|p| - 1];
      BaseNameIsLastComponent(q);
      assert p == q + [p[|p| - 1]];
    }
  }

  /** Index of the last '.' in `s`, or -1. */
  function LastDot(s: string): (r: int)
    ensures -1 <= r < |s|
    ensures r >= 0 ==> s[r] == '.'
    ensures forall i :: r < i < |s| ==> s[i] != '.'
  {
    if s == [] then -1
    else if s[|s| - 1] == '.' then |s| - 1
    else LastDot(s[..|s| - 1])
  }

  /** True when every character of `s` before index `n` is a dot. */
  predicate AllDotsBefore(s: string, n: int)
    requires n <= |s|
  {
    forall i :: 0 <= i < n ==> s[i] == '.'
  }

  /**
   * `os.path.splitext` on a separator-free name: the extension runs from the
   * last dot, unless only dots precede that dot (".profile" has none).
   */
  function SplitExt(name: string): (r: (string, string))
    ensures r.0 + r.1 == name
    ensures r.1 == [] || (r.1[0] == '.' && forall i :: 1 <= i < |r.1| ==> r.1[i] != '.')
    ensures r.1 == [] <==> LastDot(name) < 0 || AllDotsBefore(name, LastDot(name))
  {
    var d := LastDot(name);
    if d < 0 || AllDotsBefore(name, d) then (name, [])
    else (name[..d], name[d..])
  }

  /** `os.path.join(a, b)` for a relative, drive-less `b`. */
  function Join(a: Path, b: string): (r: Path)
  {
    if a == [] || IsSep(a[|a| - 1]) then a + b else a + "\\" + b
  }

  /** Joining puts the name right after the folder prefix `Join(a, "")`. */
  lemma JoinAfterPrefix(a: Path, b: string)
    ensures Join(a, b) == Join(a, []) + b
  {
  }

  /** Within one folder, different names give different paths. */
  lemma JoinInjective(a: Path, b: string, c: string)
    requires Join(a, b) == Join(a, c)
    ensures b == c
  {
    JoinAfterPrefix(a, b);
    JoinAfterPrefix(a, c);
    var n := |Join(a, [])|;
    assert b == Join(a, b)[n..] == Join(a, c)[n..] == c;
  }

  /** Two levels down: a name that does not end in a separator is followed by exactly one `\`. */
  lemma JoinTwice(a: Path, x: string, b: string)
    requires x != [] && !IsSep(x[|x| - 1])
    ensures Join(Join(a, x), b) == Join(a, []) + x + "\\" + b
  {
    JoinAfterPrefix(a, x);
    assert Join(a, x)[|Join(a, x)| - 1] == x[|x| - 1];
  }

  /** Two levels down from one folder, first-level names of one length are told apart, and so are the second-level names. */
  lemma JoinTwiceInjective(a: Path, x: string, x2: string, b: string, b2: string)
    requires |x| == |x2| && x != [] && !IsSep(x[|x| - 1]) && !IsSep(x2[|x2| - 1])
    requires Join(Join(a, x), b) == Join(Join(a, x2), b2)
    ensures x == x2 && b == b2
  {
    JoinTwice(a, x, b);
    JoinTwice(a, x2, b2);
    var n := |Join(a, [])|;
    var p := Join(Join(a, x), b);
    assert x == p[n..n + |x|] == x2;
    assert b == p[n + |x| + 1..] == b2;
  }

  /** True when `p` lies inside folder `dir`. */
  predicate UnderDir(dir: Path, p: Path) {
    |Join(dir, [])| <= |p| && p[..|Join(dir, [])|] == Join(dir, [])
  }

  lemma JoinIsUnderDir(dir: Path, name: string)
    ensures UnderDir(dir, Join(dir, name))
  {
    JoinAfterPrefix(dir, name);
  }

  /** `str(n)` for a natural number. */
  function NatToString(n: nat): (s: string)
    ensures |s| > 0
    ensures forall i :: 0 <= i < |s| ==> IsDigit(s[i])
    ensures s[0] == '0' ==> n == 0
  {
    if n < 10 then [DigitChar(n)] else NatToString(n / 10) + [DigitChar(n % 10)]
  }

  /** `int(s)` for a string of decimal digits. */
  function ParseNat(s: string): nat
    requires forall i :: 0 <= i < |s| ==> IsDigit(s[i])
  {
    if s == [] then 0 else 10 * ParseNat(s[..|s| - 1]) + DigitValue(s[|s| - 1])
  }

  lemma {:induction false} ParseNatToString(n: nat)
    ensures ParseNat(NatToString(n)) == n
  {
    var s := NatToString(n);
    DigitRoundTrip(n % 10);
    if n >= 10 {
      ParseNatToString(n / 10);
      assert s[..|s| - 1] == NatToString(n / 10);
    }
  }

  lemma NatToStringInjective(i: nat, j: nat)
    requires NatToString(i) == NatToString(j)
    ensures i == j
  {
    ParseNatToString(i);
    ParseNatToString(j);
  }

  /** The name of the `i`-th copy in the duplicates folder: `stem(i)ext`. */
  function DumpName(stem: string, i: nat, ext: string): (r: string)
  {
    stem + "(" + NatToString(i) + ")" + ext
  }

  /** Different indices give different names, so the copies of one record never collide. */
  lemma DumpNameInjective(stem: string, ext: string, i: nat, j: nat)
    requires DumpName(stem, i, ext) == DumpName(stem, j, ext)
    ensures i == j
  {
    var a, b := DumpName(stem, i, ext), DumpName(stem, j, ext);
    var mid := a[|stem|..|a| - |ext|];
    assert mid == "(" + NatToString(i) + ")" == "(" + NatToString(j) + ")";
    assert NatToString(i) == mid[1..|mid| - 1] == NatToString(j);
    NatToStringInjective(i, j);
  }

  /** `img.jpg` splits into the stem `img` and the extension `.jpg`. */
  lemma SplitExtOfImg()
    ensures SplitExt("img.jpg") == ("img", ".jpg")
  {
    var name := "img.jpg";
    assert name[..6] == "img.jp" && name[..5] == "img.j" && name[..4] == "img.";
    assert LastDot("img.") == 3;
    assert LastDot(name) == 3;
    assert !AllDotsBefore(name, 3) by { assert name[0] == 'i'; }
    assert name[..3] == "img" && name[3..] == ".jpg";
  }

  /** `img.jpg` with three paths dumps to `img(0).jpg`, `img(1).jpg`, `img(2).jpg`. */
  lemma DumpNamesOfImg()
    ensures DumpName("img", 0, ".jpg") == "img(0).jpg"
    ensures DumpName("img", 1, ".jpg") == "img(1).jpg"
    ensures DumpName("img", 2, ".jpg") == "img(2).jpg"
  {
  }
}

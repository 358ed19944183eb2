/**
 * `os.path.splitext` on POSIX paths (separator '/', extension separator '.').
 * The extension starts at the last '.' of the last path component, unless
 * everything in that component before the dot is dots too (".bashrc",
 * "..json"), in which case there is no extension.
 */
module PyPath {
  import opened PyStr

  /** `s.rfind(c)`: the last index holding `c`, or -1. */
  function RFind(s: string, c: char): (r: int)
    ensures -1 <= r < |s|
    ensures r >= 0 ==> s[r] == c
    ensures forall i :: r < i < |s| ==> s[i] != c
  {
    if s == [] then -1
    else if s[|s| - 1] == c then |s| - 1
    else RFind(s[..|s| - 1], c)
  }

  predicate AllDots(s: string) {
    forall i :: 0 <= i < |s| ==> s[i] == '.'
  }

  /** The position of the extension's dot, when `p` has an extension. */
  function ExtDot(p: string): (d: int)
    ensures -1 <= d < |p|
    ensures d >= 0 ==> p[d] == '.' && forall i :: d < i < |p| ==> p[i] != '.' && p[i] != '/'
  {
    var sep := RFind(p, '/');
    var dot := RFind(p, '.');
    if dot > sep && !AllDots(p[sep + 1..dot]) then dot else -1
  }

  /** `os.path.splitext(p)` as the pair (root, ext). */
  function SplitExt(p: string): (r: (string, string))
    ensures r.0 + r.1 == p
    ensures r.1 == [] || (r.1[0] == '.' && '.' !in r.1[1..] && '/' !in r.1[1..])
  {
    var d := ExtDot(p);
    if d >= 0 then
      ExtShape(p, d);
      (p[..d], p[d..])
    else
      assert p + [] == p;
      (p, [])
  }

  lemma ExtShape(p: string, d: nat)
    requires d < |p| && p[d] == '.'
    requires forall i :: d < i < |p| ==> p[i] != '.' && p[i] != '/'
    ensures p[..d] + p[d..] == p
    ensures p[d..][0] == '.' && '.' !in p[d..][1..] && '/' !in p[d..][1..]
  {
    assert p[d..][1..] == p[d + 1..];
  }

  lemma AbsentAfter(p: string, c: char, k: nat)
    requires k < |p|
    requires forall i :: k < i < |p| ==> p[i] != c
    ensures c !in p[k + 1..]
  {
  }

  lemma {:induction false} RFindLower(s: string, c: char)
    requires c == '.' || c == '/'
    ensures RFind(Lower(s), c) == RFind(s, c)
  {
    if s != [] {
      assert Lower(s)[..|s| - 1] == Lower(s[..|s| - 1]);
      RFindLower(s[..|s| - 1], c);
    }
  }

  /** Lower-casing a path and then splitting it is splitting it and lower-casing both parts. */
  lemma SplitExtLower(p: string)
    ensures SplitExt(Lower(p)) == (Lower(SplitExt(p).0), Lower(SplitExt(p).1))
  {
    ExtDotLower(p);
    var d := ExtDot(p);
    if d >= 0 {
      LowerSlices(p, d);
    } else {
      assert Lower([]) == [];
    }
  }

  lemma ExtDotLower(p: string)
    ensures ExtDot(Lower(p)) == ExtDot(p)
  {
    var sep, dot := RFind(p, '/'), RFind(p, '.');
    RFindLower(p, '/');
    RFindLower(p, '.');
    if dot > sep {
      LowerSlice(p, sep + 1, dot);
      LowerDots(p[sep + 1..dot]);
    }
  }

  lemma LowerDots(s: string)
    ensures AllDots(Lower(s)) == AllDots(s)
  {
    forall i | 0 <= i < |s|
      ensures Lower(s)[i] == '.' <==> s[i] == '.'
    {
      assert Lower(s)[i] == LowerChar(s[i]);
    }
  }
}

/**
 * The Python string built-ins the service relies on, written out over
 * `seq<char>`: whitespace splitting (`str.split()`), splitting on one
 * character (`str.split(' ')`), `str.join`, `str.strip()`, `str.lower()`,
 * `str.replace` of one character, `startswith`/`endswith` and the
 * substring test `needle in hay`.
 */
module PyStr {

  /** The characters CPython treats as whitespace in `str.split()` and `str.strip()`. */
  predicate IsSpace(c: char) {
    c == ' ' || ('\t' <= c <= '\r') || ('\U{1C}' <= c <= '\U{1F}')
    || c == '\U{85}' || c == '\U{A0}' || c == '\U{1680}'
    || ('\U{2000}' <= c <= '\U{200A}') || c == '\U{2028}' || c == '\U{2029}'
    || c == '\U{202F}' || c == '\U{205F}' || c == '\U{3000}'
  }

  predicate NoSpace(s: string) {
    forall i :: 0 <= i < |s| ==> !IsSpace(s[i])
  }

  predicate AllSpace(s: string) {
    forall i :: 0 <= i < |s| ==> IsSpace(s[i])
  }

  predicate IsUpperAscii(c: char) {
    'A' <= c <= 'Z'
  }

  /** Case mapping of `str.lower()`, on the ASCII letters. */
  function LowerChar(c: char): (r: char)
    ensures IsUpperAscii(c) ==> 'a' <= r <= 'z'
    ensures !IsUpperAscii(c) ==> r == c
  {
    if IsUpperAscii(c) then (c as int + 32) as char else c
  }

  /** Case mapping of `str.upper()`, on the ASCII letters. */
  function UpperChar(c: char): char {
    if 'a' <= c <= 'z' then (c as int - 32) as char else c
  }

  function Lower(s: string): string {
    seq(|s|, i requires 0 <= i < |s| => LowerChar(s[i]))
  }

  function Upper(s: string): string {
    seq(|s|, i requires 0 <= i < |s| => UpperChar(s[i]))
  }

  predicate IsLowercase(s: string) {
    forall i :: 0 <= i < |s| ==> !IsUpperAscii(s[i])
  }

  /** `str.lower()` leaves no upper-case letter, changes no whitespace and is idempotent. */
  lemma LowerFacts(s: string)
    ensures IsLowercase(Lower(s))
    ensures Lower(Lower(s)) == Lower(s)
    ensures IsLowercase(s) ==> Lower(s) == s
    ensures forall i :: 0 <= i < |s| ==> (IsSpace(Lower(s)[i]) <==> IsSpace(s[i]))
  {
  }

  /** Map `str.lower()` over a list of strings. */
  function MapLower(ws: seq<string>): (r: seq<string>)
    ensures |r| == |ws|
    ensures forall i :: 0 <= i < |ws| ==> r[i] == Lower(ws[i])
  {
    if ws == [] then [] else [Lower(ws[0])] + MapLower(ws[1..])
  }

  /** `s.startswith(p)` */
  predicate StartsWith(s: string, p: string) {
    |p| <= |s| && s[..|p|] == p
  }

  /** `s.endswith(p)` */
  predicate EndsWith(s: string, p: string) {
    |p| <= |s| && s[|s| - |p|..] == p
  }

  /** `needle in hay`: some suffix of `hay` starts with `needle`. */
  predicate Contains(hay: string, needle: string)
    decreases |hay|
  {
    StartsWith(hay, needle) || (hay != [] && Contains(hay[1..], needle))
  }

  /** The recursive substring test agrees with "needle occurs at some position". */
  lemma {:induction false} ContainsIff(hay: string, needle: string)
    ensures Contains(hay, needle) <==> exists i :: 0 <= i <= |hay| && StartsWith(hay[i..], needle)
    decreases |hay|
  {
    if hay == [] {
      assert hay[0..] == hay;
    } else {
      ContainsIff(hay[1..], needle);
      assert hay[0..] == hay;
      assert forall i :: 1 <= i <= |hay| ==> hay[1..][i - 1..] == hay[i..];
      if exists i :: 0 <= i <= |hay| && StartsWith(hay[i..], needle) {
        var i :| 0 <= i <= |hay| && StartsWith(hay[i..], needle);
        if i > 0 {
          assert StartsWith(hay[1..][i - 1..], needle);
        }
      }
      if Contains(hay[1..], needle) {
        var i :| 0 <= i <= |hay[1..]| && StartsWith(hay[1..][i..], needle);
        assert hay[1..][i..] == hay[i + 1..];
      }
    }
  }

  // ---------------------------------------------------------------------
  // Whitespace splitting: str.split() with no argument

  /** Drop leading whitespace. */
  function DropSpaces(s: string): (r: string)
    ensures |r| <= |s| && r == s[|s| - |r|..]
    ensures r == [] || !IsSpace(r[0])
    ensures forall i :: 0 <= i < |s| - |r| ==> IsSpace(s[i])
  {
    if s != [] && IsSpace(s[0]) then DropSpaces(s[1..]) else s
  }

  /** Length of the leading run of non-whitespace characters. */
  function WordLen(s: string): (n: nat)
    ensures n <= |s|
    ensures forall i :: 0 <= i < n ==> !IsSpace(s[i])
    ensures n < |s| ==> IsSpace(s[n])
  {
    if s == [] || IsSpace(s[0]) then 0 else 1 + WordLen(s[1..])
  }

  /** `s.split()`: the maximal runs of non-whitespace characters, in order. */
  function Words(s: string): (ws: seq<string>)
    ensures forall i :: 0 <= i < |ws| ==> ws[i] != [] && NoSpace(ws[i])
    decreases |s|
  {
    var t := DropSpaces(s);
    if t == [] then []
    else
      var n := WordLen(t);
      FirstWordShape(t);
      var rest := Words(t[n..]);
      WordsPrepend(t[..n], rest);
      [t[..n]] + rest
  }

  /** A text that starts with a non-whitespace character starts with a non-empty word. */
  lemma FirstWordShape(t: string)
    requires t != [] && !IsSpace(t[0])
    ensures 0 < WordLen(t) && t[..WordLen(t)] != [] && NoSpace(t[..WordLen(t)])
  {
    var n := WordLen(t);
    assert forall i :: 0 <= i < n ==> t[..n][i] == t[i];
  }

  lemma WordsPrepend(w: string, ws: seq<string>)
    requires w != [] && NoSpace(w)
    requires forall i :: 0 <= i < |ws| ==> ws[i] != [] && NoSpace(ws[i])
    ensures forall i :: 0 <= i < |[w] + ws| ==> ([w] + ws)[i] != [] && NoSpace(([w] + ws)[i])
  {
    assert forall i :: 0 < i <= |ws| ==> ([w] + ws)[i] == ws[i - 1];
  }

  /** `sep.join(parts)` */
  function Join(sep: string, parts: seq<string>): string {
    if |parts| == 0 then []
    else if |parts| == 1 then parts[0]
    else parts[0] + sep + Join(sep, parts[1..])
  }

  lemma {:induction false} WordLenAppend(a: string, b: string)
    requires NoSpace(a)
    ensures WordLen(a + b) == |a| + WordLen(b)
  {
    if a == [] {
      assert a + b == b;
    } else {
      assert (a + b)[1..] == a[1..] + b;
      assert NoSpace(a[1..]);
      WordLenAppend(a[1..], b);
    }
  }

  lemma WordsSpaceCons(x: string)
    ensures Words([' '] + x) == Words(x)
  {
    assert ([' '] + x)[1..] == x;
  }

  /** Splitting a space-join of whitespace-free non-empty words gives the words back. */
  lemma {:induction false} WordsOfJoin(ws: seq<string>)
    requires forall i :: 0 <= i < |ws| ==> ws[i] != [] && NoSpace(ws[i])
    ensures Words(Join(" ", ws)) == ws
  {
    if |ws| == 1 {
      WordsOfJoinOne(ws);
    } else if |ws| > 1 {
      WordsOfJoin(ws[1..]);
      WordsOfJoinStep(ws);
    }
  }

  lemma WordsOfJoinOne(ws: seq<string>)
    requires |ws| == 1 && ws[0] != [] && NoSpace(ws[0])
    ensures Words(Join(" ", ws)) == ws
  {
    var w := ws[0];
    WordsSingle(w);
    assert Join(" ", ws) == w;
    assert ws == [w];
  }

  lemma WordsOfJoinStep(ws: seq<string>)
    requires |ws| > 1 && ws[0] != [] && NoSpace(ws[0])
    requires Words(Join(" ", ws[1..])) == ws[1..]
    ensures Words(Join(" ", ws)) == ws
  {
    var w, rest := ws[0], Join(" ", ws[1..]);
    assert Join(" ", ws) == w + ([' '] + rest);
    WordsWordSpace(w, rest);
    assert ws == [w] + ws[1..];
  }

  /** A word followed by nothing or by whitespace is split off whole. */
  lemma WordsCons(w: string, rest: string)
    requires w != [] && NoSpace(w)
    requires rest == [] || IsSpace(rest[0])
    ensures Words(w + rest) == [w] + Words(rest)
  {
    var j := w + rest;
    WordLenAppend(w, rest);
    assert DropSpaces(j) == j;
    assert j[..|w|] == w;
    assert j[|w|..] == rest;
  }

  lemma WordsSingle(w: string)
    requires w != [] && NoSpace(w)
    ensures Words(w) == [w]
  {
    WordsCons(w, []);
    assert w + [] == w;
  }

  lemma WordsWordSpace(w: string, rest: string)
    requires w != [] && NoSpace(w)
    ensures Words(w + ([' '] + rest)) == [w] + Words(rest)
  {
    WordsCons(w, [' '] + rest);
    WordsSpaceCons(rest);
  }

  lemma {:induction false} DropSpacesLower(s: string)
    ensures DropSpaces(Lower(s)) == Lower(DropSpaces(s))
  {
    LowerFacts(s);
    if s != [] {
      assert Lower(s)[1..] == Lower(s[1..]);
      DropSpacesLower(s[1..]);
    }
  }

  lemma {:induction false} WordLenLower(s: string)
    ensures WordLen(Lower(s)) == WordLen(s)
  {
    LowerFacts(s);
    if s != [] {
      assert Lower(s)[1..] == Lower(s[1..]);
      WordLenLower(s[1..]);
    }
  }

  /** Lower-casing first and splitting afterwards is the same as splitting and lower-casing each word. */
  lemma {:induction false} WordsLower(s: string)
    ensures Words(Lower(s)) == MapLower(Words(s))
    decreases |s|
  {
    var t := DropSpaces(s);
    DropSpacesLower(s);
    WordsAfterDrop(s);
    WordsAfterDrop(Lower(s));
    if t != [] {
      var n := WordLen(t);
      WordsLowerStep(t);
      WordsLower(t[n..]);
      MapLowerCons(t[..n], Words(t[n..]));
    }
  }

  /** `split()` ignores leading whitespace. */
  lemma WordsAfterDrop(x: string)
    ensures Words(DropSpaces(x)) == Words(x)
  {
    var t := DropSpaces(x);
    assert DropSpaces(t) == t;
  }

  lemma WordsLowerStep(t: string)
    requires t != [] && !IsSpace(t[0])
    ensures Words(t) == [t[..WordLen(t)]] + Words(t[WordLen(t)..])
    ensures Words(Lower(t)) == [Lower(t[..WordLen(t)])] + Words(Lower(t[WordLen(t)..]))
  {
    var n := WordLen(t);
    var lt := Lower(t);
    WordsUnfold(t);
    LowerCharSpace(t[0]);
    WordsUnfold(lt);
    WordLenLower(t);
    LowerSlices(t, n);
  }

  lemma LowerCharSpace(c: char)
    ensures IsSpace(LowerChar(c)) <==> IsSpace(c)
  {
  }

  lemma LowerSlice(t: string, i: nat, j: nat)
    requires i <= j <= |t|
    ensures Lower(t)[i..j] == Lower(t[i..j])
  {
  }

  lemma LowerSlices(t: string, n: nat)
    requires n <= |t|
    ensures Lower(t)[..n] == Lower(t[..n]) && Lower(t)[n..] == Lower(t[n..])
  {
  }

  lemma WordsUnfold(t: string)
    requires t != [] && !IsSpace(t[0])
    ensures Words(t) == [t[..WordLen(t)]] + Words(t[WordLen(t)..])
  {
    assert DropSpaces(t) == t;
  }

  lemma MapLowerCons(w: string, ws: seq<string>)
    ensures MapLower([w] + ws) == [Lower(w)] + MapLower(ws)
  {
    assert ([w] + ws)[1..] == ws;
  }

  /** `s.split()` is empty exactly when `s` is all whitespace. */
  lemma {:induction false} WordsEmptyIff(s: string)
    ensures Words(s) == [] <==> AllSpace(s)
  {
    var t := DropSpaces(s);
    if t != [] {
      assert s[|s| - |t|] == t[0];
    }
  }

  // ---------------------------------------------------------------------
  // Splitting on one character: str.split(c)

  /** `s.split(c)` for a one-character separator: the pieces between occurrences of `c`. */
  function SplitOn(s: string, c: char): (r: seq<string>)
    ensures |r| >= 1
  {
    if s == [] then [[]]
    else
      var rest := SplitOn(s[1..], c);
      if s[0] == c then [[]] + rest else [[s[0]] + rest[0]] + rest[1..]
  }

  /** `s.split(c)` has one more piece than `s` has occurrences of `c`. */
  lemma {:induction false} SplitOnCount(s: string, c: char)
    ensures |SplitOn(s, c)| == multiset(s)[c] + 1
  {
    if s != [] {
      assert s == [s[0]] + s[1..];
      assert multiset(s) == multiset([s[0]]) + multiset(s[1..]);
      SplitOnCount(s[1..], c);
    }
  }

  lemma JoinConsHead(sep: string, x: char, p: string, ps: seq<string>)
    ensures Join(sep, [[x] + p] + ps) == [x] + Join(sep, [p] + ps)
  {
    assert ([[x] + p] + ps)[1..] == ps;
    assert ([p] + ps)[1..] == ps;
  }

  /** Joining the pieces of `s.split(c)` with `c` rebuilds `s`. */
  lemma {:induction false} JoinSplitOn(s: string, c: char)
    ensures Join([c], SplitOn(s, c)) == s
  {
    if s != [] {
      var rest := SplitOn(s[1..], c);
      JoinSplitOn(s[1..], c);
      if s[0] == c {
        assert ([[]] + rest)[1..] == rest;
      } else {
        assert rest == [rest[0]] + rest[1..];
        JoinConsHead([c], s[0], rest[0], rest[1..]);
      }
      assert s == [s[0]] + s[1..];
    }
  }

  lemma SplitOnNoSep(s: string, c: char)
    requires c !in s
    ensures SplitOn(s, c) == [s]
  {
    if s != [] {
      assert c !in s[1..];
      SplitOnNoSep(s[1..], c);
      assert s == [s[0]] + s[1..];
    }
  }

  lemma {:induction false} SplitOnAppend(a: string, c: char, b: string)
    requires c !in a
    ensures SplitOn(a + [c] + b, c) == [a] + SplitOn(b, c)
  {
    if a == [] {
      assert a + [c] + b == [c] + b;
      assert ([c] + b)[1..] == b;
    } else {
      assert (a + [c] + b)[1..] == a[1..] + [c] + b;
      assert c !in a[1..];
      SplitOnAppend(a[1..], c, b);
      assert a == [a[0]] + a[1..];
    }
  }

  /** Splitting on `c` undoes joining with `c`, when no part contains `c`. */
  lemma {:induction false} SplitOnJoin(parts: seq<string>, c: char)
    requires parts != []
    requires forall i :: 0 <= i < |parts| ==> c !in parts[i]
    ensures SplitOn(Join([c], parts), c) == parts
  {
    if |parts| == 1 {
      SplitOnNoSep(parts[0], c);
    } else {
      SplitOnAppend(parts[0], c, Join([c], parts[1..]));
      SplitOnJoin(parts[1..], c);
      assert parts == [parts[0]] + parts[1..];
    }
  }

  // ---------------------------------------------------------------------
  // str.strip() and str.replace(' ', '_')

  /** Drop trailing whitespace. */
  function DropTrailingSpaces(s: string): (r: string)
    ensures |r| <= |s| && r == s[..|r|]
    ensures r == [] || !IsSpace(r[|r| - 1])
    ensures forall i :: |r| <= i < |s| ==> IsSpace(s[i])
  {
    if s != [] && IsSpace(s[|s| - 1]) then DropTrailingSpaces(s[..|s| - 1]) else s
  }

  /** `s.strip()`: no leading or trailing whitespace is left, and only an all-whitespace input strips to "". */
  function Strip(s: string): (r: string)
    ensures r == [] || (!IsSpace(r[0]) && !IsSpace(r[|r| - 1]))
    ensures r == [] <==> AllSpace(s)
    ensures NoSpace(s) ==> r == s
  {
    var t := DropSpaces(s);
    var r := DropTrailingSpaces(t);
    assert r != [] ==> r[0] == t[0];
    assert t != [] ==> s[|s| - |t|] == t[0];
    r
  }

  /** A string with no whitespace at either end strips to itself. */
  lemma StripIdentity(s: string)
    requires s == [] || (!IsSpace(s[0]) && !IsSpace(s[|s| - 1]))
    ensures Strip(s) == s
  {
  }

  /** `strip()` is idempotent. */
  lemma StripIdempotent(s: string)
    ensures Strip(Strip(s)) == Strip(s)
  {
    StripIdentity(Strip(s));
  }

  /** Python's `a < b` on strings: lexicographic by code point. */
  predicate StrLess(a: string, b: string) {
    b != [] && (a == [] || a[0] < b[0] || (a[0] == b[0] && StrLess(a[1..], b[1..])))
  }

  /** A common prefix does not change the order of two strings. */
  /** Strings that agree on their first `k` characters and then differ upwards (or `a` ends) are ordered. */
  lemma {:induction false} StrLessAt(a: string, b: string, k: nat)
    requires k <= |a| && k < |b| && forall i :: 0 <= i < k ==> a[i] == b[i]
    requires k == |a| || a[k] < b[k]
    ensures StrLess(a, b)
    decreases k
  {
    if k > 0 {
      assert a[0] == b[0];
      StrLessAt(a[1..], b[1..], k - 1);
    }
  }

  /** `sorted(xs) == xs` with no repetition. */
  predicate StrictlySorted(xs: seq<string>) {
    forall i :: 0 <= i < |xs| - 1 ==> StrLess(xs[i], xs[i + 1])
  }

  /** `s.replace(a, b)` for single characters. */
  function ReplaceChar(s: string, a: char, b: char): (r: string)
    ensures |r| == |s|
    ensures forall i :: 0 <= i < |s| ==> r[i] == (if s[i] == a then b else s[i])
  {
    seq(|s|, i requires 0 <= i < |s| => if s[i] == a then b else s[i])
  }
}

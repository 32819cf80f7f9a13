/**
 * The Python `str` built-ins the binding generator relies on, written over
 * `seq<char>`: `in`, `find`, `rfind`, `split`, `join`, `strip`, `replace`,
 * `startswith`/`endswith`, `removeprefix`/`removesuffix` and slicing with
 * negative or out-of-range bounds.
 */
module PyStr {

  /** `c.isspace()`: the characters Python's `strip()` and the regex `\s` treat as whitespace */
  predicate IsSpace(c: char) {
    c == ' ' || '\t' <= c <= '\r' || '\U{1C}' <= c <= '\U{1F}' || c == '\U{85}' || c == '\U{A0}'
    || c == '\U{1680}' || '\U{2000}' <= c <= '\U{200A}' || c == '\U{2028}' || c == '\U{2029}'
    || c == '\U{202F}' || c == '\U{205F}' || c == '\U{3000}'
  }

  /** `p` occurs in `s` starting at index `i` */
  predicate OccursAt(s: string, p: string, i: int) {
    0 <= i && i + |p| <= |s| && s[i..i + |p|] == p
  }

  function FindFrom(s: string, p: string, i: nat): (r: int)
    requires i <= |s|
    decreases |s| - i
    ensures r == -1 || (i <= r && OccursAt(s, p, r))
    ensures forall j :: i <= j && (r == -1 || j < r) ==> !OccursAt(s, p, j)
  {
    if OccursAt(s, p, i) then i
    else if i + |p| >= |s| then -1
    else FindFrom(s, p, i + 1)
  }

  /** `s.find(p)`: the first index where `p` occurs, or -1 */
  function Find(s: string, p: string): (r: int)
    ensures r == -1 || OccursAt(s, p, r)
    ensures forall j :: 0 <= j && (r == -1 || j < r) ==> !OccursAt(s, p, j)
  {
    FindFrom(s, p, 0)
  }

  /** `p in s` */
  predicate Contains(s: string, p: string) {
    Find(s, p) >= 0
  }

  lemma ContainsAt(s: string, p: string, i: int)
    requires OccursAt(s, p, i)
    ensures Contains(s, p)
  {
  }

  lemma NotContains(s: string, p: string)
    requires forall j :: !OccursAt(s, p, j)
    ensures !Contains(s, p)
  {
  }

  /** A one-character pattern occurs exactly where that character stands */
  lemma OccursChar(s: string, c: char, j: int)
    ensures OccursAt(s, [c], j) <==> 0 <= j < |s| && s[j] == c
  {
    if 0 <= j < |s| {
      assert s[j..j + 1] == [s[j]];
    }
  }

  /** `find` of a single character: -1 exactly when it is absent, else its first index */
  lemma FindChar(s: string, c: char)
    ensures Find(s, [c]) == -1 <==> c !in s
    ensures Find(s, [c]) >= 0 ==>
      Find(s, [c]) < |s| && s[Find(s, [c])] == c && forall j :: 0 <= j < Find(s, [c]) ==> s[j] != c
  {
    var r := Find(s, [c]);
    OccursChar(s, c, r);
    if c in s {
      var k :| 0 <= k < |s| && s[k] == c;
      OccursChar(s, c, k);
    }
    forall j | 0 <= j < (if r >= 0 then r else 0)
      ensures s[j] != c
    {
      OccursChar(s, c, j);
    }
  }

  /** The first index holding `c` is what `find` returns */
  lemma FindCharAt(s: string, c: char, k: int)
    requires 0 <= k < |s| && s[k] == c && forall j :: 0 <= j < k ==> s[j] != c
    ensures Find(s, [c]) == k
  {
    forall j | 0 <= j < k
      ensures !OccursAt(s, [c], j)
    {
      OccursChar(s, c, j);
    }
    OccursChar(s, c, k);
    FindUnique(s, [c], k);
  }

  /** A string lacking one of the pattern's characters does not contain the pattern */
  lemma MissingChar(s: string, p: string, k: int)
    requires 0 <= k < |p| && p[k] !in s
    ensures !Contains(s, p)
  {
  }

  /** Contains is exactly "occurs somewhere" */
  lemma ContainsIff(s: string, p: string)
    ensures Contains(s, p) <==> exists i :: OccursAt(s, p, i)
  {
  }

  /** A string containing `q` contains every substring of `q` */
  lemma {:induction false} ContainsTrans(s: string, q: string, p: string)
    requires Contains(s, q) && Contains(q, p)
    ensures Contains(s, p)
  {
    var i := Find(s, q);
    var j := Find(q, p);
    assert s[i..i + |q|] == q;
    SliceOfSlice(s, i, |q|, j, |p|);
    ContainsAt(s, p, i + j);
  }

  /** Appending a character that cannot end the pattern neither creates nor removes an occurrence */
  lemma AppendContains(s: string, c: char, p: string)
    requires |p| > 0 && p[|p| - 1] != c
    ensures Contains(s + [c], p) <==> Contains(s, p)
  {
    ContainsIff(s + [c], p);
    ContainsIff(s, p);
    if Contains(s + [c], p) {
      var i :| OccursAt(s + [c], p, i);
      assert (s + [c])[i + |p| - 1] == (s + [c])[i..i + |p|][|p| - 1] == p[|p| - 1] != (s + [c])[|s|];
      assert s[i..i + |p|] == (s + [c])[i..i + |p|];
      assert OccursAt(s, p, i);
    }
    if Contains(s, p) {
      var i :| OccursAt(s, p, i);
      assert (s + [c])[i..i + |p|] == s[i..i + |p|];
      assert OccursAt(s + [c], p, i);
    }
  }

  /** A slice of a slice is a slice of the original */
  lemma SliceOfSlice(s: string, i: nat, n: nat, j: nat, m: nat)
    requires i + n <= |s| && j + m <= n
    ensures s[i + j..i + j + m] == s[i..i + n][j..j + m]
  {
    var a, b := s[i + j..i + j + m], s[i..i + n][j..j + m];
    forall k | 0 <= k < m ensures a[k] == b[k] {
      assert s[i..i + n][j + k] == s[i + j + k];
    }
  }

  /** `Find` is determined by the two properties it guarantees */
  lemma FindUnique(s: string, p: string, r: int)
    requires r == -1 || OccursAt(s, p, r)
    requires forall j :: 0 <= j && (r == -1 || j < r) ==> !OccursAt(s, p, j)
    ensures Find(s, p) == r
  {
  }

  /** `s.rfind(c)` for a single character: the last index holding `c`, or -1 */
  function RFindChar(s: string, c: char): (r: int)
    ensures r == -1 || (0 <= r < |s| && s[r] == c)
    ensures forall j :: r < j < |s| ==> s[j] != c
  {
    if |s| == 0 then -1
    else if s[|s| - 1] == c then |s| - 1
    else RFindChar(s[..|s| - 1], c)
  }

  /** `rfind` finds the occurrence after which the character no longer appears */
  lemma RFindCharLast(s: string, c: char, k: int)
    requires 0 <= k < |s| && s[k] == c && c !in s[k + 1..]
    ensures RFindChar(s, c) == k
  {
  }

  /** `s.startswith(p)` */
  predicate StartsWith(s: string, p: string) {
    |p| <= |s| && s[..|p|] == p
  }

  /** `s.endswith(p)` */
  predicate EndsWith(s: string, p: string) {
    |p| <= |s| && s[|s| - |p|..] == p
  }

  /** `s.removeprefix(p)` */
  function RemovePrefix(s: string, p: string): (r: string)
    ensures StartsWith(s, p) ==> p + r == s
    ensures !StartsWith(s, p) ==> r == s
  {
    if StartsWith(s, p) then s[|p|..] else s
  }

  /** `s.removesuffix(p)` */
  function RemoveSuffix(s: string, p: string): (r: string)
    ensures EndsWith(s, p) ==> r + p == s
    ensures !EndsWith(s, p) ==> r == s
  {
    if EndsWith(s, p) then s[..|s| - |p|] else s
  }

  /** `s[k:]` for `k >= 0`: out-of-range bounds clamp to the empty string */
  function SliceFrom(s: string, k: nat): (r: string)
    ensures k <= |s| ==> s[..k] + r == s
    ensures k >= |s| ==> r == ""
  {
    if k <= |s| then s[k..] else ""
  }

  /** `s[:-n]` for `n > 0`: drops the last `n` characters, or everything when there are fewer */
  function DropLast(s: string, n: nat): (r: string)
    requires n > 0
    ensures n <= |s| ==> |r| == |s| - n && s == r + s[|s| - n..]
    ensures n > |s| ==> r == ""
  {
    if n <= |s| then s[..|s| - n] else ""
  }

  /** The end of the run of whitespace starting at k */
  function SpacesFrom(s: string, k: nat): (e: nat)
    requires k <= |s|
    ensures k <= e <= |s| && forall i :: k <= i < e ==> IsSpace(s[i])
    ensures e < |s| ==> !IsSpace(s[e])
    decreases |s| - k
  {
    if k < |s| && IsSpace(s[k]) then SpacesFrom(s, k + 1) else k
  }

  /** The start of the run of whitespace ending at n */
  function SpacesBefore(s: string, n: nat): (b: nat)
    requires n <= |s|
    ensures b <= n && forall i :: b <= i < n ==> IsSpace(s[i])
    ensures b > 0 ==> !IsSpace(s[b - 1])
  {
    if n > 0 && IsSpace(s[n - 1]) then SpacesBefore(s, n - 1) else n
  }

  /** `s.lstrip()` */
  function LStrip(s: string): (r: string)
    ensures |r| <= |s| && r == s[|s| - |r|..]
    ensures forall i :: 0 <= i < |s| - |r| ==> IsSpace(s[i])
    ensures |r| > 0 ==> !IsSpace(r[0])
  {
    s[SpacesFrom(s, 0)..]
  }

  /** `s.rstrip()` */
  function RStrip(s: string): (r: string)
    ensures |r| <= |s| && r == s[..|r|]
    ensures forall i :: |r| <= i < |s| ==> IsSpace(s[i])
    ensures |r| > 0 ==> !IsSpace(r[|r| - 1])
  {
    s[..SpacesBefore(s, |s|)]
  }

  /** `s.strip()`: the slice of `s` left after removing whitespace at both ends */
  function Strip(s: string): (r: string)
    ensures var a := |s| - |LStrip(s)|;
      a + |r| <= |s| && r == s[a..a + |r|]
      && (forall i :: 0 <= i < a ==> IsSpace(s[i]))
      && (forall i :: a + |r| <= i < |s| ==> IsSpace(s[i]))
    ensures |r| > 0 ==> !IsSpace(r[0]) && !IsSpace(r[|r| - 1])
  {
    var a := SpacesFrom(s, 0);
    var e := SpacesBefore(s, |s|);
    if a < e then s[a..e] else ""
  }

  /** Every character of a stripped string comes from the original */
  lemma StripInfix(s: string)
    ensures forall x :: x in Strip(s) ==> x in s
  {
    var r := Strip(s);
    var a := |s| - |LStrip(s)|;
    forall x | x in r
      ensures x in s
    {
      var k :| 0 <= k < |r| && r[k] == x;
      assert s[a + k] == x;
    }
  }

  /** A string with no whitespace at either end is its own strip */
  lemma StripTrimmed(s: string)
    requires |s| > 0 ==> !IsSpace(s[0]) && !IsSpace(s[|s| - 1])
    ensures Strip(s) == s
  {
    if |s| > 0 {
      assert SpacesFrom(s, 0) == 0 && SpacesBefore(s, |s|) == |s|;
    }
  }

  /** Stripping a word followed by one space drops the space */
  lemma StripOneTrailing(s: string)
    requires |s| >= 2 && !IsSpace(s[0]) && !IsSpace(s[|s| - 2]) && IsSpace(s[|s| - 1])
    ensures Strip(s) == s[..|s| - 1]
  {
    assert SpacesFrom(s, 0) == 0;
    assert SpacesBefore(s, |s|) == SpacesBefore(s, |s| - 1) == |s| - 1;
  }

  /** `sep.join(xs)` */
  function Join(xs: seq<string>, sep: string): (r: string)
    ensures |xs| == 0 ==> r == ""
    ensures |xs| == 1 ==> r == xs[0]
  {
    if |xs| == 0 then "" else if |xs| == 1 then xs[0] else xs[0] + sep + Join(xs[1..], sep)
  }

  lemma JoinCons(x: string, xs: seq<string>, sep: string)
    requires |xs| > 0
    ensures Join([x] + xs, sep) == x + sep + Join(xs, sep)
  {
    assert ([x] + xs)[1..] == xs;
  }

  /** `s.split(sep)` for a non-empty separator */
  function Split(s: string, sep: string): (r: seq<string>)
    requires |sep| > 0
    decreases |s|
    ensures |r| >= 1
  {
    var i := Find(s, sep);
    if i < 0 then [s] else [s[..i]] + Split(s[i + |sep|..], sep)
  }

  lemma SplitAt(s: string, sep: string, i: int)
    requires |sep| > 0 && i >= 0 && Find(s, sep) == i
    ensures Split(s, sep) == [s[..i]] + Split(s[i + |sep|..], sep)
  {
  }

  /** Splitting and re-joining with the same separator gives the string back */
  lemma {:induction false} JoinSplit(s: string, sep: string)
    requires |sep| > 0
    ensures Join(Split(s, sep), sep) == s
    decreases |s|
  {
    var i := Find(s, sep);
    if i >= 0 {
      var rest := s[i + |sep|..];
      JoinSplit(rest, sep);
      var tail := Split(rest, sep);
      SplitAt(s, sep, i);
      JoinCons(s[..i], tail, sep);
      assert s[i..i + |sep|] == sep;
      assert s == s[..i] + sep + rest;
    }
  }

  /** No piece of a split contains the separator */
  lemma {:induction false} SplitPieces(s: string, sep: string)
    requires |sep| > 0
    ensures forall k :: 0 <= k < |Split(s, sep)| ==> !Contains(Split(s, sep)[k], sep)
    decreases |s|
  {
    var i := Find(s, sep);
    if i < 0 {
    } else {
      var rest := s[i + |sep|..];
      SplitPieces(rest, sep);
      forall j
        ensures !OccursAt(s[..i], sep, j)
      {
        if 0 <= j && j + |sep| <= i {
          assert s[..i][j..j + |sep|] == s[j..j + |sep|];
          assert !OccursAt(s, sep, j);
        }
      }
      NotContains(s[..i], sep);
    }
  }

  /**
   * `s.replace(pat, rep)` for a non-empty pattern: occurrences are replaced
   * left to right without overlapping. A string without the pattern comes
   * back unchanged, and a replacement no longer than the pattern never
   * lengthens the string.
   */
  function ReplaceAll(s: string, pat: string, rep: string): (r: string)
    requires |pat| > 0
    decreases |s|
    ensures !Contains(s, pat) ==> r == s
    ensures |rep| <= |pat| ==> |r| <= |s|
  {
    var i := Find(s, pat);
    if i < 0 then s else s[..i] + rep + ReplaceAll(s[i + |pat|..], pat, rep)
  }

  /** Python's identity `s.replace(pat, rep) == rep.join(s.split(pat))` */
  lemma {:induction false} ReplaceIsJoinSplit(s: string, pat: string, rep: string)
    requires |pat| > 0
    ensures ReplaceAll(s, pat, rep) == Join(Split(s, pat), rep)
    decreases |s|
  {
    if Find(s, pat) >= 0 {
      ReplaceIsJoinSplit(s[Find(s, pat) + |pat|..], pat, rep);
      ReplaceJoinStep(s, pat, rep);
    }
  }

  /** The inductive step of `ReplaceIsJoinSplit`: the identity for the rest after the first match gives it for the whole */
  lemma ReplaceJoinStep(s: string, pat: string, rep: string)
    requires |pat| > 0 && Find(s, pat) >= 0
    requires ReplaceAll(s[Find(s, pat) + |pat|..], pat, rep) == Join(Split(s[Find(s, pat) + |pat|..], pat), rep)
    ensures ReplaceAll(s, pat, rep) == Join(Split(s, pat), rep)
  {
    ReplaceAt(s, pat, rep);
    SplitAt(s, pat, Find(s, pat));
    JoinCons(s[..Find(s, pat)], Split(s[Find(s, pat) + |pat|..], pat), rep);
  }

  /** Replacing in a string with a match: the text before it, the replacement, then the rest replaced */
  lemma ReplaceAt(s: string, pat: string, rep: string)
    requires |pat| > 0 && Find(s, pat) >= 0
    ensures ReplaceAll(s, pat, rep) == s[..Find(s, pat)] + rep + ReplaceAll(s[Find(s, pat) + |pat|..], pat, rep)
  {
  }

  /** The string built by appending `x + sep` for every `x` of `xs` in turn */
  function Trailing(xs: seq<string>, sep: string): (r: string)
    ensures |xs| == 0 ==> r == ""
  {
    if |xs| == 0 then "" else Trailing(xs[..|xs| - 1], sep) + xs[|xs| - 1] + sep
  }

  lemma TrailingSnoc(xs: seq<string>, x: string, sep: string)
    ensures Trailing(xs + [x], sep) == Trailing(xs, sep) + x + sep
  {
    assert (xs + [x])[..|xs|] == xs;
  }

  lemma {:induction false} TrailingCons(x: string, xs: seq<string>, sep: string)
    ensures Trailing([x] + xs, sep) == x + sep + Trailing(xs, sep)
    decreases |xs|
  {
    if |xs| > 0 {
      var init := xs[..|xs| - 1];
      TrailingCons(x, init, sep);
      assert ([x] + xs)[..|xs|] == [x] + init;
    }
  }

  lemma {:induction false} JoinSnoc(xs: seq<string>, x: string, sep: string)
    requires |xs| > 0
    ensures Join(xs + [x], sep) == Join(xs, sep) + sep + x
    decreases |xs|
  {
    if |xs| > 1 {
      assert (xs + [x])[1..] == xs[1..] + [x];
      JoinSnoc(xs[1..], x, sep);
    }
  }

  /** A trailing separator accumulated in a loop is the join plus one separator */
  lemma {:induction false} TrailingIsJoin(xs: seq<string>, sep: string)
    requires |xs| > 0
    ensures Trailing(xs, sep) == Join(xs, sep) + sep
    decreases |xs|
  {
    if |xs| > 1 {
      var init := xs[..|xs| - 1];
      TrailingIsJoin(init, sep);
      JoinSnoc(init, xs[|xs| - 1], sep);
      assert init + [xs[|xs| - 1]] == xs;
    }
  }

  /** Cutting the last separator off the accumulated string (`s[:-2]` for ", ") leaves the join */
  lemma DropTrailing(xs: seq<string>, sep: string)
    requires |sep| > 0
    ensures DropLast(Trailing(xs, sep), |sep|) == Join(xs, sep)
  {
    if |xs| > 0 {
      TrailingIsJoin(xs, sep);
      var t := Trailing(xs, sep);
      assert t[..|t| - |sep|] == Join(xs, sep);
    }
  }
}

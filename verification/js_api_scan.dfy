/**
 * The header scan of the binding generator: which lines of a header lie
 * between the `[JS_BINDING_BEGIN]` and `[JS_BINDING_END]` markers, which of
 * those are skipped as comments, preprocessor lines or deleted functions,
 * and how a declaration line becomes a return type, a bound name and a
 * parameter list that the stub and wrapper builders then turn into text.
 */
module JsApiScan {
  import opened Wrappers
  import opened PyStr
  import opened JsApiGenerator

  // ---------------------------------------------------------------- class names

  /** A character `\w` matches, restricted to ASCII */
  predicate IsWordChar(c: char) {
    'a' <= c <= 'z' || 'A' <= c <= 'Z' || '0' <= c <= '9' || c == '_'
  }

  /** A non-empty run of word characters, as `\w+` matches */
  predicate IsWord(s: string) {
    |s| > 0 && forall i :: 0 <= i < |s| ==> IsWordChar(s[i])
  }

  /** The length of the run of word characters that `s` starts with */
  function WordLength(s: string): (n: nat)
    ensures n <= |s|
    ensures forall i :: 0 <= i < n ==> IsWordChar(s[i])
    ensures n < |s| ==> !IsWordChar(s[n])
  {
    if |s| > 0 && IsWordChar(s[0]) then 1 + WordLength(s[1..]) else 0
  }

  /**
   * The first match of `class (\w+)` at or after index `i`: the longest word
   * after the first "class " that a word character follows.
   */
  function ClassNameFrom(s: string, i: nat): (r: Option<string>)
    requires i <= |s|
    decreases |s| - i
    ensures r.Some? ==> IsWord(r.value) && Contains(s, "class " + r.value)
    ensures r.None? ==>
      forall j :: i <= j && OccursAt(s, "class ", j) ==> j + 6 == |s| || !IsWordChar(s[j + 6])
  {
    if OccursAt(s, "class ", i) && i + 6 < |s| && IsWordChar(s[i + 6]) then
      var n := WordLength(s[i + 6..]);
      var name := s[i + 6..i + 6 + n];
      assert s[i..i + 6 + n] == "class " + name;
      ContainsAt(s, "class " + name, i);
      Some(name)
    else if i == |s| then None
    else ClassNameFrom(s, i + 1)
  }

  /** The class name a line declares, if `class (\w+)` matches it */
  function FirstClassName(line: string): (r: Option<string>)
    ensures r.Some? ==> IsWord(r.value) && Contains(line, "class " + r.value)
    ensures r.None? ==>
      forall j :: OccursAt(line, "class ", j) ==> j + 6 == |line| || !IsWordChar(line[j + 6])
  {
    ClassNameFrom(line, 0)
  }

  /** A word is taken whole: the name stops only where the word stops */
  lemma ClassNameWhole(prefix: string, name: string, rest: string)
    requires IsWord(name) && !Contains(prefix, "class ")
    requires |rest| > 0 ==> !IsWordChar(rest[0])
    ensures FirstClassName(prefix + "class " + name + rest) == Some(name)
  {
    var s := prefix + "class " + name + rest;
    var i := |prefix|;
    assert s[i..i + 6] == "class ";
    forall j | 0 <= j < i
      ensures ClassNameFrom(s, j) == ClassNameFrom(s, i)
    {
      ClassNameSkip(s, prefix, j);
    }
    assert s[i + 6..] == name + rest;
    WordLengthOf(name, rest);
  }

  lemma ClassNameSkip(s: string, prefix: string, j: nat)
    requires |prefix| <= |s| && s[..|prefix|] == prefix && !Contains(prefix, "class ")
    requires j <= |prefix| && |prefix| + 6 <= |s| && s[|prefix|..|prefix| + 6] == "class "
    decreases |prefix| - j
    ensures ClassNameFrom(s, j) == ClassNameFrom(s, |prefix|)
  {
    if j < |prefix| {
      if OccursAt(s, "class ", j) {
        if j + 6 <= |prefix| {
          assert prefix[j..j + 6] == s[j..j + 6];
          ContainsAt(prefix, "class ", j);
        }
      }
      if j + 6 > |prefix| {
        // an occurrence straddling the end of `prefix` would overlap the one at |prefix|
        ClassOverlap(s, j, |prefix|);
      }
      ClassNameSkip(s, prefix, j + 1);
    }
  }

  /** "class " does not overlap itself */
  lemma ClassOverlap(s: string, j: int, k: int)
    requires 0 <= j < k < j + 6 && k + 6 <= |s| && s[k..k + 6] == "class "
    ensures !OccursAt(s, "class ", j)
  {
    assert s[k] == s[k..k + 6][0] == 'c';
    assert s[j..j + 6][k - j] == s[k];
    assert "class "[k - j] != 'c';
  }

  lemma WordLengthOf(name: string, rest: string)
    requires IsWord(name) && (|rest| > 0 ==> !IsWordChar(rest[0]))
    ensures WordLength(name + rest) == |name|
  {
    var s := name + rest;
    assert forall i :: 0 <= i < |name| ==> s[i] == name[i];
    assert |rest| > 0 ==> s[|name|] == rest[0];
  }

  // ------------------------------------------------------- nested parentheses

  /** One turn of the loop at lines 213-216: cut from the first '(' through the first ')' */
  function CutParens(s: string): string
    requires Contains(s, "(")
  {
    s[..Find(s, "(")] + SliceFrom(s, Find(s, ")") + 1)
  }

  /** Whether the first ')' comes after the first '(' */
  predicate Closes(s: string)
    requires Contains(s, "(")
  {
    Find(s, ")") > Find(s, "(")
  }

  /**
   * The text after the parameter list's '(' with every nested parenthesised
   * group cut out, or None where the loop never ends.
   */
  function RemoveNestedParens(s: string): (r: Option<string>)
    decreases |s|
    ensures r.Some? ==> !Contains(r.value, "(") && |r.value| <= |s|
    ensures !Contains(s, "(") ==> r == Some(s)
  {
    if !Contains(s, "(") then Some(s)
    else if Closes(s) then RemoveNestedParens(CutParens(s))
    else None
  }

  /**
   * Once the first ')' no longer follows the first '(', a turn of the loop
   * leaves it that way: the loop runs forever, which None stands for.
   */
  lemma NeverCloses(s: string)
    requires Contains(s, "(") && !Closes(s)
    ensures Contains(CutParens(s), "(") && !Closes(CutParens(s))
  {
    var l := Find(s, "(");
    var r := Find(s, ")");
    FindChar(s, '(');
    FindChar(s, ')');
    if r == -1 {
      assert CutParens(s) == s[..l] + s;
      CutWithoutClose(s, l);
    } else {
      assert CutParens(s) == s[..l] + s[r + 1..];
      CutAfterClose(s, l, r);
    }
  }

  /** With no ')' at all, the cut keeps everything after the first '(' */
  lemma CutWithoutClose(s: string, l: int)
    requires 0 <= l < |s| && s[l] == '(' && ')' !in s
    ensures Contains(s[..l] + s, "(") && Find(s[..l] + s, ")") == -1
  {
    var t := s[..l] + s;
    assert t[l + l] == '(';
    OccursChar(t, '(', l + l);
    ContainsAt(t, "(", l + l);
    assert ')' !in t;
    FindChar(t, ')');
  }

  /** A ')' before the first '(' survives the cut and still precedes every '(' */
  lemma CutAfterClose(s: string, l: int, r: int)
    requires 0 <= r < l < |s| && s[l] == '(' && s[r] == ')'
    requires forall j :: 0 <= j < l ==> s[j] != '('
    requires forall j :: 0 <= j < r ==> s[j] != ')'
    ensures var t := s[..l] + s[r + 1..];
      Contains(t, "(") && Find(t, ")") == r && Find(t, "(") >= l
  {
    var t := s[..l] + s[r + 1..];
    assert t[l + (l - r - 1)] == '(';
    OccursChar(t, '(', l + l - r - 1);
    ContainsAt(t, "(", l + l - r - 1);
    FindCharAt(t, ')', r);
    FindChar(t, '(');
    assert forall j :: 0 <= j < l ==> t[j] != '(';
  }

  /** The loop at lines 212-216 */
  method StripNestedParens(s: string) returns (r: Option<string>)
    ensures r == RemoveNestedParens(s)
  {
    var rest := s;
    while Contains(rest, "(")
      invariant RemoveNestedParens(rest) == RemoveNestedParens(s)
      decreases |rest|
    {
      var left := Find(rest, "(");
      var right := Find(rest, ")");
      if right <= left {
        return None;
      }
      rest := rest[..left] + SliceFrom(rest, right + 1);
    }
    return Some(rest);
  }

  // ------------------------------------------------------------ default values

  /** The length of the whitespace run that `s` starts with */
  function SpaceRun(s: string): (n: nat)
    ensures n <= |s|
    ensures forall i :: 0 <= i < n ==> IsSpace(s[i])
    ensures n < |s| ==> !IsSpace(s[n])
  {
    if |s| > 0 && IsSpace(s[0]) then 1 + SpaceRun(s[1..]) else 0
  }

  /** The length of the run of characters other than ',' and ')' that `s` starts with */
  function ValueRun(s: string): (n: nat)
    ensures n <= |s|
    ensures forall i :: 0 <= i < n ==> s[i] != ',' && s[i] != ')'
    ensures n < |s| ==> s[n] == ',' || s[n] == ')'
  {
    if |s| > 0 && s[0] != ',' && s[0] != ')' then 1 + ValueRun(s[1..]) else 0
  }

  /**
   * Where a match of `\s*=\s*[^,)]+` that starts at the beginning of `s`
   * ends: past the spaces, the '=' and the whole value up to the next ',' or
   * ')', provided that value is not empty.
   */
  function DefaultMatch(s: string): (k: Option<nat>)
    ensures k.Some? ==> 0 < k.value <= |s| && '=' in s[..k.value]
    ensures k.Some? ==> k.value == |s| || s[k.value] == ',' || s[k.value] == ')'
    ensures '=' !in s ==> k.None?
  {
    var j := SpaceRun(s);
    if j < |s| && s[j] == '=' && ValueRun(s[j + 1..]) > 0 then
      var k := j + 1 + ValueRun(s[j + 1..]);
      assert s[..k][j] == '=';
      Some(k)
    else None
  }

  /** `re.sub(r"\s*=\s*[^,)]+", "", s)`: every default value removed */
  function StripDefaults(s: string): (r: string)
    decreases |s|
    ensures |r| <= |s|
    ensures '=' !in s ==> r == s
  {
    if |s| == 0 then ""
    else match DefaultMatch(s)
      case Some(k) => StripDefaults(s[k..])
      case None => [s[0]] + StripDefaults(s[1..])
  }

  /** No default value survives: each '=' left ends the text or precedes ',' or ')' */
  lemma {:induction false} NoDefaultsLeft(s: string)
    ensures NoDefault(StripDefaults(s))
    ensures |s| > 0 && (s[0] == ',' || s[0] == ')') ==> |StripDefaults(s)| > 0 && StripDefaults(s)[0] == s[0]
    decreases |s|
  {
    if |s| > 0 {
      match DefaultMatch(s)
      case Some(k) =>
        NoDefaultsLeft(s[k..]);
      case None =>
        NoDefaultsLeft(s[1..]);
        KeptCharacter(s);
    }
  }

  /** Each '=' of `s` ends it or precedes ',' or ')' */
  predicate NoDefault(s: string) {
    forall i :: 0 <= i < |s| && s[i] == '=' ==> i + 1 == |s| || s[i + 1] == ',' || s[i + 1] == ')'
  }

  /** A character kept where no default value starts: an '=' kept has no value after it */
  lemma KeptCharacter(s: string)
    requires |s| > 0 && DefaultMatch(s).None? && NoDefault(StripDefaults(s[1..]))
    requires |s| > 1 && (s[1] == ',' || s[1] == ')') ==> |StripDefaults(s[1..])| > 0 && StripDefaults(s[1..])[0] == s[1]
    ensures NoDefault(StripDefaults(s))
  {
    var rest := StripDefaults(s[1..]);
    assert StripDefaults(s) == [s[0]] + rest;
    if s[0] == '=' {
      assert SpaceRun(s) == 0;
      assert ValueRun(s[1..]) == 0;
    }
  }

  // ----------------------------------------------------------- parameter list

  /** The first match of `\((.*?)\)`: the text between the first '(' and the first ')' after it */
  function ParamGroup(s: string): (r: Option<string>)
    ensures r.None? <==> !Contains(s, "(") || !Contains(s[Find(s, "(") + 1..], ")")
    ensures r.Some? ==> ')' !in r.value && Contains(s, "(" + r.value + ")")
    ensures r.Some? ==> '(' !in s[..Find(s, "(")]
  {
    var l := Find(s, "(");
    FindChar(s, '(');
    if l < 0 then None
    else
      var rest := s[l + 1..];
      var k := Find(rest, ")");
      FindChar(rest, ')');
      if k < 0 then None
      else
        Parenthesised(s, l, k);
        Some(rest[..k])
  }

  /** The text between a '(' at `l` and a ')' `k` characters after it, brackets included, occurs in `s` */
  lemma Parenthesised(s: string, l: int, k: int)
    requires 0 <= l && 0 <= k && l + 1 + k < |s| && s[l] == '(' && s[l + 1..][k] == ')'
    ensures Contains(s, "(" + s[l + 1..][..k] + ")")
  {
    var g := s[l + 1..][..k];
    assert s[l..l + k + 2] == [s[l]] + s[l + 1..l + 1 + k] + [s[l + 1 + k]];
    assert s[l + 1..l + 1 + k] == g;
    ContainsAt(s, "(" + g + ")", l);
  }

  // ------------------------------------------------------------ parameters

  /** A raw parameter stripped and cut before any '=' of a default value */
  function ClearParam(c: string): (r: string)
    ensures |Strip(c)| > 0 && !Contains(Strip(c), "=") ==> r == Strip(c)
    ensures '=' !in r
  {
    var clear := Strip(c);
    if Contains(clear, "=") then
      var k := Find(clear, "=");
      FindChar(clear, '=');
      StripInfix(clear[..k]);
      Strip(clear[..k])
    else
      FindChar(clear, '=');
      clear
  }

  const Vector2Components: seq<string> := ["float vec_x", "float vec_y"]
  const Vector3Components: seq<string> := ["float vec_x", "float vec_y", "float vec_z"]

  /**
   * Lines 244-258 for one raw parameter: nothing for an empty one, the float
   * components for a 2D or 3D vector, the cleared text otherwise.
   */
  function ExpandParam(c: string): (r: seq<string>)
    ensures |r| == 0 <==> |Strip(c)| == 0
    ensures |r| <= 3
  {
    if |Strip(c)| == 0 then []
    else
      var clear := ClearParam(c);
      if Contains(clear, "Vector2") then Vector2Components
      else if Contains(clear, "Vector3") then Vector3Components
      else [clear]
  }

  /** The lists concatenated in order */
  function Concat(xss: seq<seq<string>>): seq<string>
    decreases |xss|
  {
    if |xss| == 0 then [] else Concat(xss[..|xss| - 1]) + xss[|xss| - 1]
  }

  lemma {:induction false} ConcatAppend(xss: seq<seq<string>>, yss: seq<seq<string>>)
    ensures Concat(xss + yss) == Concat(xss) + Concat(yss)
    decreases |yss|
  {
    if |yss| > 0 {
      var zss := xss + yss;
      var init := yss[..|yss| - 1];
      assert zss[..|zss| - 1] == xss + init;
      ConcatAppend(xss, init);
      SeqAssoc(Concat(xss), Concat(init), yss[|yss| - 1]);
    } else {
      assert xss + yss == xss;
    }
  }

  /** The expansion of each raw parameter, in order */
  function Expansions(raw: seq<string>): (r: seq<seq<string>>)
    ensures |r| == |raw| && forall i :: 0 <= i < |raw| ==> r[i] == ExpandParam(raw[i])
  {
    seq(|raw|, i requires 0 <= i < |raw| => ExpandParam(raw[i]))
  }

  /** The transformed parameter list of a declaration */
  function TransformParams(raw: seq<string>): seq<string> {
    Concat(Expansions(raw))
  }

  lemma TransformParamsAppend(xs: seq<string>, ys: seq<string>)
    ensures TransformParams(xs + ys) == TransformParams(xs) + TransformParams(ys)
  {
    assert Expansions(xs + ys) == Expansions(xs) + Expansions(ys);
    ConcatAppend(Expansions(xs), Expansions(ys));
  }

  lemma TransformParamsSnoc(raw: seq<string>, i: int)
    requires 0 <= i < |raw|
    ensures TransformParams(raw[..i + 1]) == TransformParams(raw[..i]) + ExpandParam(raw[i])
  {
    var e := Expansions(raw[..i + 1]);
    assert e[..i] == Expansions(raw[..i]);
  }

  /** One turn of the loop at lines 243-258: the parameters one raw parameter contributes */
  method ExpandOne(c: string) returns (r: seq<string>)
    ensures r == ExpandParam(c)
  {
    var clear := Strip(c);
    if |clear| == 0 {
      return [];
    }
    if Contains(clear, "=") {
      clear := Strip(clear[..Find(clear, "=")]);
    }
    ExpandCleared(c, clear);
    if Contains(clear, "Vector2") {
      r := Vector2Components;
    } else if Contains(clear, "Vector3") {
      r := Vector3Components;
    } else {
      r := [clear];
    }
  }

  /** A non-empty raw parameter expands according to its cleared text */
  lemma ExpandCleared(c: string, clear: string)
    requires |Strip(c)| > 0
    requires clear == if Contains(Strip(c), "=") then Strip(Strip(c)[..Find(Strip(c), "=")]) else Strip(c)
    ensures ExpandParam(c) == if Contains(clear, "Vector2") then Vector2Components
                              else if Contains(clear, "Vector3") then Vector3Components
                              else [clear]
  {
    assert clear == ClearParam(c);
  }

  /** The loop at lines 243-258 */
  method TransformParamList(raw: seq<string>) returns (params: seq<string>)
    ensures params == TransformParams(raw)
  {
    params := [];
    for i := 0 to |raw|
      invariant params == TransformParams(raw[..i])
    {
      TransformParamsSnoc(raw, i);
      var expanded := ExpandOne(raw[i]);
      params := params + expanded;
    }
    assert raw[..|raw|] == raw;
  }

  /** What a raw parameter declares: nothing, a vector, or an ordinary converted parameter */
  function ClassifyParam(c: string): Option<Arg> {
    if |Strip(c)| == 0 then None
    else if Contains(ClearParam(c), "Vector2") then Some(Vector2)
    else if Contains(ClearParam(c), "Vector3") then Some(Vector3)
    else Some(Plain(CppParam(ClearParam(c))))
  }

  /** The declared parameters of a raw list, empty ones dropped */
  function ArgsOf(raw: seq<string>): seq<Arg>
    decreases |raw|
  {
    if |raw| == 0 then []
    else
      var a := ClassifyParam(raw[|raw| - 1]);
      ArgsOf(raw[..|raw| - 1]) + (if a.Some? then [a.value] else [])
  }

  function Expanded(a: Arg): seq<Param> {
    if a.Plain? then [a.p] else Components(a)
  }

  lemma {:induction false} FlattenSnoc(args: seq<Arg>, a: Arg)
    ensures Flatten(args + [a]) == Flatten(args) + Expanded(a)
    decreases |args|
  {
    if |args| == 0 {
      assert [] + [a] == [a];
      assert [a][1..] == [];
    } else {
      assert (args + [a])[0] == args[0];
      assert (args + [a])[1..] == args[1..] + [a];
      FlattenSnoc(args[1..], a);
    }
  }

  /** Two words around a single space split into a type and a name */
  lemma SplitTwoWords(c: string, k: int)
    requires 0 < k < |c| - 1 && c[k] == ' ' && ' ' !in c[..k] && ' ' !in c[k + 1..]
    requires !IsSpace(c[0]) && !IsSpace(c[k - 1]) && !IsSpace(c[k + 1]) && !IsSpace(c[|c| - 1])
    ensures SplitParam(c) == Param(c[..k], c[k + 1..])
  {
    SplitParamAtLastSpace(c, k);
    var ty := c[..k + 1];
    StripOneTrailing(ty);
    assert ty[..k] == c[..k];
    StripTrimmed(c[k + 1..]);
  }

  /** A `float` parameter needs no conversion */
  lemma FloatUnconverted(name: string)
    ensures ParamConvertCpp(Param("float", name)) == Param("float", name)
  {
    MissingChar("float", "Ptr", 0);
    MissingChar("float", "const void*", 0);
    MissingChar("float", "std::string", 0);
    MissingChar("float", "const std::string&", 0);
  }

  /** A parameter that splits into a `float` and a plain name is declared as it is */
  lemma CppParamFloat(c: string, name: string)
    requires SplitParam(c) == Param("float", name) && |name| > 0 && name[0] != '*' && name[0] != '&'
    ensures CppParam(c) == Param("float", name)
  {
    FloatUnconverted(name);
  }

  /** A name without whitespace that does not start with '*' or '&' */
  predicate PlainName(name: string) {
    |name| > 0 && name[0] != '*' && name[0] != '&' && forall i :: 0 <= i < |name| ==> !IsSpace(name[i])
  }

  /** "float " followed by a plain name is declared as a float of that name */
  lemma FloatComponent(name: string)
    requires PlainName(name)
    ensures CppParam("float " + name) == Param("float", name)
  {
    var c := "float " + name;
    assert c[..5] == "float" && c[6..] == name && c[5] == ' ';
    assert !IsSpace(c[0]) && !IsSpace(c[4]) && c[6] == name[0] && c[|c| - 1] == name[|name| - 1];
    assert ' ' !in c[..5];
    assert ' ' !in c[6..];
    SplitTwoWords(c, 5);
    CppParamFloat(c, name);
  }

  /** The wrapper converts a vector component back to the float parameter it stands for */
  lemma ComponentParam(k: int)
    requires 0 <= k < 3
    ensures CppParam(Vector3Components[k]) == Components(Vector3)[k]
  {
    var name := VecNames[k];
    assert Vector3Components[k] == "float " + name;
    assert Components(Vector3)[k] == Param("float", name);
    assert PlainName(name) by {
      if k == 0 {
        assert name == "vec_x";
      } else if k == 1 {
        assert name == "vec_y";
      } else {
        assert name == "vec_z";
      }
    }
    FloatComponent(name);
  }

  /** The three components convert to the three float parameters the wrapper regroups */
  lemma ComponentParams()
    ensures CppParams(Vector3Components) == Components(Vector3)
  {
    forall k | 0 <= k < 3
      ensures CppParams(Vector3Components)[k] == Components(Vector3)[k]
    {
      ComponentParam(k);
    }
  }

  /** The components a vector expands into convert to the components the wrapper regroups */
  lemma VectorExpansion(xs: seq<string>, a: Arg)
    requires !a.Plain? && xs == Vector3Components[..Dim(a)]
    ensures CppParams(xs) == Components(a)
  {
    MapPrefix(CppParam, Vector3Components, Dim(a));
    ComponentParams();
    assert Components(a) == Components(Vector3)[..Dim(a)];
  }

  /** A vector parameter expands into the first `Dim` components */
  lemma ExpandVectorList(c: string, a: Arg)
    requires ClassifyParam(c) == Some(a) && !a.Plain?
    ensures ExpandParam(c) == Vector3Components[..Dim(a)]
  {
    VectorComponentLists();
  }

  lemma VectorComponentLists()
    ensures Vector2Components == Vector3Components[..2]
    ensures Vector3Components == Vector3Components[..3]
  {
  }

  /** A vector parameter is declared as its converted components */
  lemma ExpandVector(c: string, a: Arg)
    requires ClassifyParam(c) == Some(a) && !a.Plain?
    ensures CppParams(ExpandParam(c)) == Components(a)
  {
    ExpandVectorList(c, a);
    VectorExpansion(ExpandParam(c), a);
  }

  /** The wrapper declares exactly the converted components of each declared parameter */
  lemma ExpandMatchesArg(c: string)
    ensures CppParams(ExpandParam(c)) == (match ClassifyParam(c) case None => [] case Some(a) => Expanded(a))
  {
    match ClassifyParam(c)
    case None =>
      assert ExpandParam(c) == [];
    case Some(a) =>
      if a.Plain? {
        ExpandPlain(c, a.p);
      } else {
        ExpandVector(c, a);
      }
  }

  /** An ordinary parameter is declared as its own conversion */
  lemma ExpandPlain(c: string, p: Param)
    requires ClassifyParam(c) == Some(Plain(p))
    ensures CppParams(ExpandParam(c)) == [p]
  {
    assert ExpandParam(c) == [ClearParam(c)];
    CppParamsSingle(ClearParam(c));
  }

  lemma CppParamsSingle(x: string)
    ensures CppParams([x]) == [CppParam(x)]
  {
  }

  /** Transforming then converting is flattening the declared parameters */
  lemma {:induction false} TransformIsFlatten(raw: seq<string>)
    ensures CppParams(TransformParams(raw)) == Flatten(ArgsOf(raw))
    decreases |raw|
  {
    if |raw| == 0 {
    } else {
      var init := raw[..|raw| - 1];
      var c := raw[|raw| - 1];
      TransformParamsSnoc(raw, |raw| - 1);
      assert raw[..|raw|] == raw;
      TransformIsFlatten(init);
      ExpandMatchesArg(c);
      CppParamsAppend(TransformParams(init), ExpandParam(c));
      match ClassifyParam(c)
      case None =>
        assert ArgsOf(raw) == ArgsOf(init) + [] == ArgsOf(init);
      case Some(a) =>
        FlattenSnoc(ArgsOf(init), a);
    }
  }

  lemma SeqAssoc<T>(a: seq<T>, b: seq<T>, c: seq<T>)
    ensures a + b + c == a + (b + c)
  {
  }

  lemma CppParamsAppend(xs: seq<string>, ys: seq<string>)
    ensures CppParams(xs + ys) == CppParams(xs) + CppParams(ys)
  {
    MapAppend(CppParam, xs, ys);
  }

  // ---------------------------------------------------------- object pointer

  /** The raw parameters of a declaration: a method gets its object pointer first */
  function RawParams(className: string, isStatic: bool, group: string): (r: seq<string>)
    ensures |className| > 0 && !isStatic ==> r == [ObjectParam(className)] + Split(group, ",")
    ensures |className| == 0 || isStatic ==> r == Split(group, ",")
  {
    if |className| > 0 && !isStatic then [ObjectParam(className)] + Split(group, ",") else Split(group, ",")
  }

  lemma WordHasNo(className: string, c: char)
    requires (className == "" || IsWord(className)) && !IsWordChar(c)
    ensures c !in className
  {
  }

  /** The object pointer of a word class name expands to itself unless it mentions a vector */
  lemma ObjectPointerExpansion(className: string)
    requires IsWord(className)
    ensures var e := ExpandParam(ObjectParam(className));
      e == [ObjectParam(className)] || e == Vector2Components || e == Vector3Components
    ensures !Contains(ObjectParam(className), "Vector2") && !Contains(ObjectParam(className), "Vector3")
            ==> ExpandParam(ObjectParam(className)) == [ObjectParam(className)]
  {
    var obj := ObjectParam(className);
    assert !IsSpace(obj[0]) by {
      assert obj[0] == className[0] && IsWordChar(className[0]);
    }
    assert obj[|obj| - 1] == 'r';
    StripTrimmed(obj);
    WordHasNo(className, '=');
    assert '=' !in obj;
    MissingChar(obj, "=", 0);
  }

  /** "float vec_x" has two space-separated words */
  lemma ComponentWords()
    ensures |Split(Vector3Components[0], " ")| >= 2
  {
    var c := Vector3Components[0];
    assert c[5] == ' ' && forall j :: 0 <= j < 5 ==> c[j] != ' ';
    FindCharAt(c, ' ', 5);
    SplitAt(c, " ", 5);
  }

  lemma TransformSingle(x: string)
    ensures TransformParams([x]) == ExpandParam(x)
  {
    assert Expansions([x]) == [ExpandParam(x)];
    assert Concat([ExpandParam(x)]) == Concat([]) + ExpandParam(x);
  }

  /** The first parameter an object pointer expands into has two words */
  lemma ObjectPointerWords(className: string)
    requires IsWord(className)
    ensures |ExpandParam(ObjectParam(className))| > 0
    ensures |Split(ExpandParam(ObjectParam(className))[0], " ")| >= 2
  {
    ObjectPointerExpansion(className);
    if ExpandParam(ObjectParam(className)) == [ObjectParam(className)] {
      PlainObjectWords(className);
    } else {
      VectorHeadWords(ExpandParam(ObjectParam(className)));
    }
  }

  lemma PlainObjectWords(className: string)
    requires IsWord(className)
    ensures |Split(ObjectParam(className), " ")| >= 2
  {
    WordHasNo(className, ' ');
    MissingChar(className, " ", 0);
    ObjectPointerName(className);
  }

  lemma VectorHeadWords(e: seq<string>)
    requires e == Vector2Components || e == Vector3Components
    ensures |e| > 0 && |Split(e[0], " ")| >= 2
  {
    assert e[0] == Vector3Components[0];
    ComponentWords();
  }

  /**
   * A method of a class with a word name always has an object pointer of at
   * least two words first: the wrapper's `IndexError` cannot happen.
   */
  lemma ObjectPointerPresent(className: string, raw: seq<string>)
    requires IsWord(className)
    ensures var ps := TransformParams([ObjectParam(className)] + raw);
      |ps| > 0 && |Split(ps[0], " ")| >= 2
  {
    var obj := ObjectParam(className);
    TransformParamsAppend([obj], raw);
    TransformSingle(obj);
    ObjectPointerWords(className);
    assert TransformParams([obj] + raw)[0] == ExpandParam(obj)[0];
  }

  /**
   * The wrapper passes each declared parameter once, vectors regrouped into
   * one constructor call, and never the object pointer of a method, provided
   * no ordinary parameter looks like a vector component and no two vectors
   * are adjacent.
   */
  lemma WrapperCall(className: string, isStatic: bool, group: string)
    requires Regroupable(ArgsOf(Split(group, ",")))
    requires !isStatic ==> IsWord(className)
    requires !Contains(ObjectParam(className), "Vector2") && !Contains(ObjectParam(className), "Vector3")
    ensures var ps := CppParams(TransformParams(RawParams(className, isStatic, group)));
      DropLast(Resume(CallArgs("", 0), Callees(ps, isStatic)).text, 2)
      == Join(ArgTexts(ArgsOf(Split(group, ","))), ", ")
  {
    var raw := Split(group, ",");
    var declared := CppParams(TransformParams(raw));
    if !isStatic {
      var obj := ObjectParam(className);
      TransformParamsAppend([obj], raw);
      TransformSingle(obj);
      ObjectPointerExpansion(className);
      CppParamsAppend([obj], TransformParams(raw));
      assert CppParams(TransformParams(RawParams(className, isStatic, group)))[1..] == declared;
    }
    TransformIsFlatten(raw);
    Regroup(ArgsOf(raw));
  }

  // ------------------------------------------------------------- declarations

  /** Where the generator gives up on a header */
  datatype ScanError =
    | ParenLoopDiverges      // the loop removing nested parentheses never ends
    | NoParameterList        // the `assert False` for a line without a parameter list
    | NoObjectPointer        // the wrapper's `IndexError` on a method without an object pointer

  /** One exported function: the name it is registered under, its JavaScript stub, its C++ wrapper */
  datatype Binding = Binding(name: string, js: string, cpp: string)

  /** What a declaration line inside a binding block yields */
  datatype Decl = Skip | Bind(binding: Binding) | Abort(error: ScanError)

  /**
   * Lines 211-217: the text after the first '(' with its nested parentheses
   * cut out, appended to the text up to and including that '('; None where
   * the loop never ends.
   */
  function WithoutNestedParens(lc: string): (r: Option<string>)
    ensures r.Some? ==> lc[..Find(lc, "(") + 1] <= r.value
    ensures r.Some? ==> '(' !in r.value[Find(lc, "(") + 1..]
  {
    var split := Find(lc, "(");
    match RemoveNestedParens(SliceFrom(lc, split + 1))
    case None => None
    case Some(inner) =>
      var r := lc[..split + 1] + inner;
      assert r[split + 1..] == inner;
      FindChar(inner, '(');
      Some(r)
  }

  /** Lines 211-219: nested parentheses cut out, then default values removed */
  function Normalize(lc: string): (r: Option<string>)
    ensures r.None? <==> WithoutNestedParens(lc).None?
    ensures r.Some? ==> NoDefault(r.value)
  {
    match WithoutNestedParens(lc)
    case None => None
    case Some(line) =>
      NoDefaultsLeft(line);
      Some(StripDefaults(line))
  }

  /** The first piece of a split is a prefix of the text */
  lemma SplitFirst(s: string, sep: string)
    requires |sep| > 0
    ensures Split(s, sep)[0] <= s
  {
  }

  /** Every character of a prefix or of a suffix is a character of the text */
  lemma PrefixChars(s: string, t: string)
    requires t <= s
    ensures forall c :: c in t ==> c in s
  {
    forall c | c in t ensures c in s {
      var k :| 0 <= k < |t| && t[k] == c;
      assert s[k] == c;
    }
  }

  /**
   * Lines 222-228: the return type and the function name, the name cut at
   * its first '('; a '*' in the name moves to the return type and one
   * leading '*' leaves the name.
   */
  function Signature(first: string, second: string): (r: (string, string))
    ensures var name := Split(second, "(")[0];
      r.0 == (if Contains(name, "*") then first + "*" else first)
      && (StartsWith(name, "*") ==> "*" + r.1 == name)
      && (!StartsWith(name, "*") ==> r.1 == name)
    ensures '(' !in r.1
    ensures ' ' !in second ==> ' ' !in r.1
  {
    var name := Split(second, "(")[0];
    SplitPieces(second, "(");
    FindChar(name, '(');
    SplitFirst(second, "(");
    PrefixChars(second, name);
    var bare := RemovePrefix(name, "*");
    assert forall c :: c in bare ==> c in name by {
      forall c | c in bare ensures c in name {
        var k :| 0 <= k < |bare| && bare[k] == c;
        if StartsWith(name, "*") {
          assert name[k + 1] == c;
        }
      }
    }
    if Contains(name, "*") then (first + "*", bare) else (first, name)
  }

  /** A declaration parsed: the return type, the bound name, whether it is static, the transformed parameters */
  datatype Parsed = Parsed(returnType: string, funcName: string, isStatic: bool, params: seq<string>)

  /**
   * Lines 211-258: the declaration parsed and its parameters transformed;
   * `Success(None)` for a line of fewer than two words, which is passed over.
   */
  function ParseDecl(lc: string, className: string): Result<Option<Parsed>, ScanError> {
    match Normalize(lc)
    case None => Failure(ParenLoopDiverges)
    case Some(normalized) =>
      var isStatic := Contains(normalized, "static ");
      var line := RemoveCppKeywords(normalized);
      var parts := Split(line, " ");
      if |parts| < 2 then Success(None)
      else
        var sig := Signature(parts[0], parts[1]);
        match ParamGroup(line)
        case None => Failure(NoParameterList)
        case Some(group) =>
          var funcName := if |className| > 0 && !isStatic then BoundName(className, sig.1) else sig.1;
          Success(Some(Parsed(sig.0, funcName, isStatic, TransformParams(RawParams(className, isStatic, group)))))
  }

  /** Lines 259-260: the stub and the wrapper of a parsed declaration */
  function Emit(p: Parsed, className: string, namespace: string): Decl {
    match CppText(className, p.isStatic, p.returnType, p.funcName, p.params)
    case MissingObjectPointer => Abort(NoObjectPointer)
    case Emitted(cpp) => Bind(Binding(p.funcName, JsText(p.returnType, p.funcName, p.params, namespace), cpp))
  }

  /** Lines 211-260 for a line that survived the skip rules */
  function TransformDecl(lc: string, className: string, namespace: string): Decl {
    match ParseDecl(lc, className)
    case Failure(e) => Abort(e)
    case Success(None) => Skip
    case Success(Some(p)) => Emit(p, className, namespace)
  }

  /**
   * Outside a class, or in a class with a word name, a method always has an
   * object pointer of two words first, so the wrapper never fails.
   */
  lemma DeclHasObjectPointer(lc: string, className: string)
    requires className == "" || IsWord(className)
    ensures var d := ParseDecl(lc, className);
      d.Success? && d.value.Some? && |className| > 0 && !d.value.value.isStatic ==>
        |d.value.value.params| > 0 && |Split(d.value.value.params[0], " ")| >= 2
  {
    match Normalize(lc)
    case None =>
    case Some(normalized) =>
      var isStatic := Contains(normalized, "static ");
      var line := RemoveCppKeywords(normalized);
      if |Split(line, " ")| >= 2 && ParamGroup(line).Some? && |className| > 0 && !isStatic {
        ObjectPointerPresent(className, Split(ParamGroup(line).value, ","));
      }
  }

  /** Hence the scan never meets the wrapper's failure */
  lemma NeverMissingObjectPointer(lc: string, className: string, namespace: string)
    requires className == "" || IsWord(className)
    ensures TransformDecl(lc, className, namespace) != Abort(NoObjectPointer)
  {
    DeclHasObjectPointer(lc, className);
  }

  /** The name read from a line of at least two words holds no '(' and no space */
  lemma NameShape(className: string, line: string)
    requires className == "" || IsWord(className)
    requires |Split(line, " ")| >= 2
    ensures var parts := Split(line, " ");
      var name := Signature(parts[0], parts[1]).1;
      '(' !in name && ' ' !in name && '(' !in BoundName(className, name) && ' ' !in BoundName(className, name)
  {
    var parts := Split(line, " ");
    SplitPieces(line, " ");
    assert !Contains(parts[1], " ");
    FindChar(parts[1], ' ');
    WordHasNo(className, ' ');
    WordHasNo(className, '(');
  }

  /** A bound name holds no '(' and, in a class with a word name, no space */
  lemma BoundNameShape(lc: string, className: string)
    requires className == "" || IsWord(className)
    ensures var d := ParseDecl(lc, className);
      d.Success? && d.value.Some? ==> '(' !in d.value.value.funcName && ' ' !in d.value.value.funcName
  {
    match Normalize(lc)
    case None =>
    case Some(normalized) =>
      if |Split(RemoveCppKeywords(normalized), " ")| >= 2 {
        NameShape(className, RemoveCppKeywords(normalized));
      }
  }

  /** Lines 211-258: the declaration on one line parsed */
  method ParseLine(lc: string, className: string) returns (r: Result<Option<Parsed>, ScanError>)
    ensures r == ParseDecl(lc, className)
  {
    var split := Find(lc, "(");
    var removed := StripNestedParens(SliceFrom(lc, split + 1));
    if removed.None? {
      return Failure(ParenLoopDiverges);
    }
    var line := StripDefaults(lc[..split + 1] + removed.value);
    var isStatic := Contains(line, "static ");
    line := RemoveCppKeywords(line);
    var parts := Split(line, " ");
    if |parts| < 2 {
      return Success(None);
    }
    var returnType := parts[0];
    var funcName := Split(parts[1], "(")[0];
    if Contains(funcName, "*") {
      returnType := returnType + "*";
      funcName := RemovePrefix(funcName, "*");
    }
    var group := ParamGroup(line);
    if group.None? {
      return Failure(NoParameterList);
    }
    var raw := Split(group.value, ",");
    if |className| > 0 && !isStatic {
      funcName := BoundName(className, funcName);
      raw := [ObjectParam(className)] + raw;
    }
    var params := TransformParamList(raw);
    return Success(Some(Parsed(returnType, funcName, isStatic, params)));
  }

  /** Lines 211-260 for one line: parse it, then build the stub and the wrapper */
  method TransformLine(lc: string, className: string, namespace: string) returns (d: Decl)
    ensures d == TransformDecl(lc, className, namespace)
  {
    var parsed := ParseLine(lc, className);
    match parsed
    case Failure(e) =>
      return Abort(e);
    case Success(None) =>
      return Skip;
    case Success(Some(p)) =>
      var js := GenJsFile(p.returnType, p.funcName, p.params, namespace);
      var cpp := GenCppFile(className, p.isStatic, p.returnType, p.funcName, p.params);
      match cpp
      case MissingObjectPointer =>
        return Abort(NoObjectPointer);
      case Emitted(text) =>
        return Bind(Binding(p.funcName, js, text));
  }

  // ---------------------------------------------------------------- the scan

  const BeginMarker := "[JS_BINDING_BEGIN]"

  /** A header line that, once stripped, holds the begin marker */
  predicate MarksBegin(line: string) {
    Contains(Strip(line), BeginMarker)
  }
  const EndMarker := "[JS_BINDING_END]"

  /**
   * The scan of one header: whether a binding block is open, whether a
   * multi-line comment is, the class last declared, the bindings so far and
   * whether the header opened a block (and so is included by the output).
   */
  datatype ScanState = ScanState(begin: bool, comment: bool, className: string,
                                 bindings: seq<Binding>, exported: bool)

  const InitialScan := ScanState(false, false, "", [], false)

  /** A line with a line comment, a one-line block comment or a preprocessor directive */
  predicate SkippedLine(lc: string) {
    Contains(lc, "//") || (Contains(lc, "/*") && Contains(lc, "*/")) || Contains(lc, "#")
  }

  /** Lines 189-192: the class a line declares, if any, replaces the current one */
  function ClassAfter(className: string, lc: string): (r: string)
    ensures r == className || IsWord(r)
  {
    if Contains(lc, "class ") && !Contains(lc, "friend class") then
      match FirstClassName(lc)
      case Some(name) => name
      case None => className
    else className
  }

  /** Lines 189-261 for the stripped content `lc` of one line of a header */
  function ContentStep(st: ScanState, lc: string, namespace: string): Result<ScanState, ScanError> {
    BlockStep(st.(className := ClassAfter(st.className, lc)), lc, namespace)
  }

  /** Lines 193-261: the markers, then the skip rules inside a block, then the transform */
  function BlockStep(st: ScanState, lc: string, namespace: string): Result<ScanState, ScanError> {
    if Contains(lc, BeginMarker) then Success(st.(begin := true, exported := true))
    else if Contains(lc, EndMarker) then Success(st.(begin := false))
    else if !st.begin || SkippedLine(lc) then Success(st)
    else if Contains(lc, "/*") then Success(st.(comment := true))
    else if Contains(lc, "*/") then Success(st.(comment := false))
    else if st.comment || Contains(lc, " = delete;") then Success(st)
    else DeclStep(st, lc, namespace)
  }

  /** Lines 211-261: a declaration's binding recorded, or the scan given up */
  function DeclStep(st: ScanState, lc: string, namespace: string): Result<ScanState, ScanError> {
    match TransformDecl(lc, st.className, namespace)
    case Skip => Success(st)
    case Bind(b) => Success(st.(bindings := st.bindings + [b]))
    case Abort(e) => Failure(e)
  }

  /** Lines 188-261 for one line of a header */
  function LineStep(st: ScanState, line: string, namespace: string): Result<ScanState, ScanError> {
    ContentStep(st, Strip(line), namespace)
  }

  /** The scan of the remaining lines from state `st`: the state after the last, or the first failure */
  function Scan(st: ScanState, lines: seq<string>, namespace: string): Result<ScanState, ScanError>
    decreases |lines|
  {
    if |lines| == 0 then Success(st)
    else
      match LineStep(st, lines[0], namespace)
      case Failure(e) => Failure(e)
      case Success(next) => Scan(next, lines[1..], namespace)
  }

  /** One turn of the loop over a header's lines */
  method ScanLine(st: ScanState, line: string, namespace: string) returns (r: Result<ScanState, ScanError>)
    ensures r == LineStep(st, line, namespace)
  {
    var lc := Strip(line);
    r := ScanContent(st, lc, namespace);
  }

  /** The body of that loop for the stripped line `lc` */
  method ScanContent(st: ScanState, lc: string, namespace: string) returns (r: Result<ScanState, ScanError>)
    ensures r == ContentStep(st, lc, namespace)
  {
    var className := st.className;
    if Contains(lc, "class ") && !Contains(lc, "friend class") {
      var found := FirstClassName(lc);
      if found.Some? {
        className := found.value;
      }
    }
    r := ScanBlock(st.(className := className), lc, namespace);
  }

  /** The markers and the skip rules */
  method ScanBlock(st: ScanState, lc: string, namespace: string) returns (r: Result<ScanState, ScanError>)
    ensures r == BlockStep(st, lc, namespace)
  {
    if Contains(lc, BeginMarker) {
      return Success(st.(begin := true, exported := true));
    } else if Contains(lc, EndMarker) {
      return Success(st.(begin := false));
    } else if st.begin {
      if SkippedLine(lc) {
        return Success(st);
      }
      if Contains(lc, "/*") {
        return Success(st.(comment := true));
      }
      if Contains(lc, "*/") {
        return Success(st.(comment := false));
      }
      if st.comment || Contains(lc, " = delete;") {
        return Success(st);
      }
      r := ScanDecl(st, lc, namespace);
      return;
    }
    return Success(st);
  }

  /** A declaration line: its binding recorded */
  method ScanDecl(st: ScanState, lc: string, namespace: string) returns (r: Result<ScanState, ScanError>)
    ensures r == DeclStep(st, lc, namespace)
  {
    var d := TransformLine(lc, st.className, namespace);
    match d
    case Skip =>
      return Success(st);
    case Bind(b) =>
      return Success(st.(bindings := st.bindings + [b]));
    case Abort(e) =>
      return Failure(e);
  }

  /** The loop over one header's lines, from a fresh state */
  method ScanHeader(lines: seq<string>, namespace: string) returns (result: Result<ScanState, ScanError>)
    ensures result == Scan(InitialScan, lines, namespace)
  {
    var st := InitialScan;
    for i := 0 to |lines|
      invariant Scan(st, lines[i..], namespace) == Scan(InitialScan, lines, namespace)
    {
      assert lines[i..][0] == lines[i] && lines[i..][1..] == lines[i + 1..];
      var r := ScanLine(st, lines[i], namespace);
      if r.Failure? {
        return Failure(r.error);
      }
      st := r.value;
    }
    assert lines[|lines|..] == [];
    return Success(st);
  }

  /**
   * A line adds at most one binding, and only when a block is open, the line
   * carries neither marker, lies outside a multi-line comment and is none of
   * the skipped kinds; the binding is the transform of that line.
   */
  lemma StepBindsOnlyInsideBlock(st: ScanState, line: string, namespace: string)
    ensures var r := LineStep(st, line, namespace);
      var lc := Strip(line);
      r.Success? ==>
        r.value.bindings == st.bindings
        || (st.begin && !st.comment && !Contains(lc, BeginMarker) && !Contains(lc, EndMarker)
            && !SkippedLine(lc) && !Contains(lc, "/*") && !Contains(lc, "*/") && !Contains(lc, " = delete;")
            && TransformDecl(lc, ClassAfter(st.className, lc), namespace).Bind?
            && r.value.bindings
               == st.bindings + [TransformDecl(lc, ClassAfter(st.className, lc), namespace).binding])
  {
  }

  /** A line keeps the bindings so far as a prefix */
  lemma StepAppends(st: ScanState, lc: string, namespace: string)
    ensures var r := ContentStep(st, lc, namespace);
      r.Success? ==> st.bindings <= r.value.bindings
  {
  }

  /** Bindings are only ever appended, in the order of the lines */
  lemma {:induction false} BindingsAppended(st: ScanState, lines: seq<string>, namespace: string)
    ensures var r := Scan(st, lines, namespace);
      r.Success? ==> st.bindings <= r.value.bindings
    decreases |lines|
  {
    if |lines| > 0 {
      StepAppends(st, Strip(lines[0]), namespace);
      match LineStep(st, lines[0], namespace)
      case Failure(_) =>
      case Success(next) =>
        BindingsAppended(next, lines[1..], namespace);
    }
  }

  /** Without a begin marker ahead and outside a block, no line is bound */
  lemma {:induction false} NoBeginNoBindings(st: ScanState, lines: seq<string>, namespace: string)
    requires !st.begin
    requires forall i :: 0 <= i < |lines| ==> !MarksBegin(lines[i])
    ensures var r := Scan(st, lines, namespace);
      r.Success? && r.value.bindings == st.bindings && !r.value.begin
    decreases |lines|
  {
    if |lines| > 0 {
      var next := LineStep(st, lines[0], namespace).value;
      assert !next.begin && next.bindings == st.bindings;
      NoBeginNoBindings(next, lines[1..], namespace);
    }
  }

  /** A line exports its header exactly when it holds the begin marker */
  lemma StepExports(st: ScanState, lc: string, namespace: string)
    ensures var r := ContentStep(st, lc, namespace);
      r.Success? ==> (r.value.exported <==> st.exported || Contains(lc, BeginMarker))
  {
  }

  /** A header is exported exactly when one of its lines holds the begin marker */
  lemma {:induction false} ExportedIffBegin(st: ScanState, lines: seq<string>, namespace: string)
    ensures var r := Scan(st, lines, namespace);
      r.Success? ==>
        (r.value.exported <==> st.exported || exists i :: 0 <= i < |lines| && MarksBegin(lines[i]))
    decreases |lines|
  {
    if |lines| > 0 {
      StepExports(st, Strip(lines[0]), namespace);
      match LineStep(st, lines[0], namespace)
      case Failure(_) =>
      case Success(next) =>
        ExportedIffBegin(next, lines[1..], namespace);
        ExistsCons(lines, MarksBegin);
    }
  }

  /** Some element satisfies `p` exactly when the first does or some later one does */
  lemma ExistsCons<T>(xs: seq<T>, p: T -> bool)
    requires |xs| > 0
    ensures (exists i :: 0 <= i < |xs| && p(xs[i])) <==> p(xs[0]) || exists i :: 0 <= i < |xs[1..]| && p(xs[1..][i])
  {
    if exists i :: 0 <= i < |xs| && p(xs[i]) {
      var i :| 0 <= i < |xs| && p(xs[i]);
      if i > 0 {
        assert xs[1..][i - 1] == xs[i];
      }
    }
    if exists i :: 0 <= i < |xs[1..]| && p(xs[1..][i]) {
      var i :| 0 <= i < |xs[1..]| && p(xs[1..][i]);
      assert xs[i + 1] == xs[1..][i];
    }
  }

  /** The class name the scan holds is always empty or a word */
  predicate ClassNameValid(st: ScanState) {
    st.className == "" || IsWord(st.className)
  }

  /** A line fails only where its transform aborts, and then with the same error */
  lemma StepFails(st: ScanState, lc: string, namespace: string)
    ensures var r := ContentStep(st, lc, namespace);
      r.Failure? ==> TransformDecl(lc, ClassAfter(st.className, lc), namespace) == Abort(r.error)
    ensures var r := ContentStep(st, lc, namespace);
      r.Success? ==> r.value.className == ClassAfter(st.className, lc)
  {
  }

  /** A line keeps the class name valid and, with it valid, cannot make the wrapper fail */
  lemma StepKeepsClassName(st: ScanState, line: string, namespace: string)
    requires ClassNameValid(st)
    ensures var r := LineStep(st, line, namespace);
      r != Failure(NoObjectPointer) && (r.Success? ==> ClassNameValid(r.value))
  {
    var lc := Strip(line);
    NeverMissingObjectPointer(lc, ClassAfter(st.className, lc), namespace);
    StepFails(st, lc, namespace);
  }

  /** Starting from a valid class name, no header makes the wrapper fail */
  lemma {:induction false} ScanNeverMissingObjectPointer(st: ScanState, lines: seq<string>, namespace: string)
    requires ClassNameValid(st)
    ensures Scan(st, lines, namespace) != Failure(NoObjectPointer)
    decreases |lines|
  {
    if |lines| > 0 {
      StepKeepsClassName(st, lines[0], namespace);
      match LineStep(st, lines[0], namespace)
      case Failure(_) =>
      case Success(next) =>
        ScanNeverMissingObjectPointer(next, lines[1..], namespace);
    }
  }
}

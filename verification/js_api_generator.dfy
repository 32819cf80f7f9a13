/**
 * The text the JavaScript binding generator emits for one exported C++
 * function: keyword stripping, the mapping of parameter and return types to
 * FFI types, the JavaScript `ffi` stub, and the C++ wrapper that forwards to
 * the original method, regrouping expanded vector components into one
 * `Vector2f`/`Vector3f` argument. Emitted text is returned as a string.
 */
module JsApiGenerator {
  import opened PyStr

  /** One parameter, split into its type and its name */
  datatype Param = Param(ty: string, name: string)

  /** `remove_cpp_keywords`: deletes every "static " and then every "virtual " */
  function RemoveCppKeywords(line: string): (r: string)
    ensures r == Join(Split(Join(Split(line, "static "), ""), "virtual "), "")
    ensures |r| <= |line|
    ensures !Contains(line, "static ") && !Contains(line, "virtual ") ==> r == line
  {
    var once := ReplaceAll(line, "static ", "");
    ReplaceIsJoinSplit(line, "static ", "");
    ReplaceIsJoinSplit(once, "virtual ", "");
    ReplaceAll(once, "virtual ", "")
  }

  /** Every type mentioning "const std::string&" also mentions "std::string" */
  lemma StringRefIsString(t: string)
    ensures Contains(t, "const std::string&") ==> Contains(t, "std::string")
  {
    if Contains(t, "const std::string&") {
      ContainsAt("const std::string&", "std::string", 6);
      ContainsTrans(t, "const std::string&", "std::string");
    }
  }

  /**
   * `param_convert_cpp`: the type a wrapper declares for a parameter and the
   * name it gives it. A smart pointer ("Ptr") wins over the other rules: it
   * becomes a raw pointer and its name gains "_sp"; otherwise `const void*`
   * becomes `void*` and strings become `char*`.
   */
  function ParamConvertCpp(p: Param): (r: Param)
    ensures r.name == p.name + "_sp" <==> Contains(p.ty, "Ptr")
    ensures Contains(p.ty, "Ptr") ==> r == Param(ReplaceAll(p.ty, "Ptr", "*"), p.name + "_sp")
    ensures !Contains(p.ty, "Ptr") ==> r.name == p.name
    ensures !Contains(p.ty, "Ptr") && Contains(p.ty, "const void*") ==> r.ty == "void*"
    ensures !Contains(p.ty, "Ptr") && !Contains(p.ty, "const void*") ==>
              r.ty == if Contains(p.ty, "std::string") then "char*" else p.ty
  {
    StringRefIsString(p.ty);
    var t1 := if Contains(p.ty, "const std::string&") || Contains(p.ty, "std::string") then "char*" else p.ty;
    var t2 := if Contains(p.ty, "const void*") then "void*" else t1;
    if Contains(p.ty, "Ptr") then Param(ReplaceAll(p.ty, "Ptr", "*"), p.name + "_sp") else Param(t2, p.name)
  }

  /** A pointer type other than a C string */
  predicate TypedPointer(t: string) {
    Contains(t, "*") && !Contains(t, "char*")
  }

  /** A type the script treats as an integer */
  predicate IntegerType(t: string) {
    Contains(t, "int") || Contains(t, "size_t")
  }

  /** One of the engine's enums passed to JavaScript as an integer */
  predicate EngineEnum(t: string) {
    Contains(t, "Layer2D") || Contains(t, "LightType") || Contains(t, "BlendMode")
  }

  /**
   * `param_convert_js`: the FFI type the JavaScript side uses. The first
   * matching rule applies: typed pointers become `void*`, integers and the
   * engine's enums `int`, smart pointers `void*`, strings `char*`; any other
   * type is kept. JavaScript never sees a typed pointer other than `char*`.
   */
  function ParamConvertJs(t: string): (r: string)
    ensures r == "void*" || r == "int" || r == "char*" || r == t
    ensures TypedPointer(t) ==> r == "void*"
    ensures !TypedPointer(t) && IntegerType(t) ==> r == "int"
    ensures !TypedPointer(t) && !IntegerType(t) && EngineEnum(t) ==> r == "int"
    ensures !TypedPointer(t) && !IntegerType(t) && !EngineEnum(t) && Contains(t, "Ptr") ==> r == "void*"
    ensures (!TypedPointer(t) && !IntegerType(t) && !EngineEnum(t) && !Contains(t, "Ptr")
             && Contains(t, "std::string")) ==> r == "char*"
    ensures (!TypedPointer(t) && !IntegerType(t) && !EngineEnum(t) && !Contains(t, "Ptr")
             && !Contains(t, "std::string")) ==> r == t
    ensures r == "int" ==> Contains(t, "int") || Contains(t, "size_t") || Contains(t, "Layer2D")
                           || Contains(t, "LightType") || Contains(t, "BlendMode")
    ensures Contains(r, "*") ==> r == "void*" || Contains(r, "char*")
  {
    StringRefIsString(t);
    assert !Contains("int", "*") by { MissingChar("int", "*", 0); }
    assert Contains("char*", "char*") by { ContainsAt("char*", "char*", 0); }
    if TypedPointer(t) then "void*"
    else if IntegerType(t) then "int"
    else if EngineEnum(t) then "int"
    else if Contains(t, "Ptr") then "void*"
    else if Contains(t, "const std::string&") || Contains(t, "std::string") then "char*"
    else t
  }

  /** `void*` is a typed pointer, so it converts to itself */
  lemma VoidPtrConvertsToItself()
    ensures ParamConvertJs("void*") == "void*"
  {
    assert "void*"[4..5] == "*";
    ContainsAt("void*", "*", 4);
    MissingChar("void*", "char*", 0);
  }

  /** `int` is an integer type and no pointer, so it converts to itself */
  lemma IntConvertsToItself()
    ensures ParamConvertJs("int") == "int"
  {
    ContainsAt("int", "int", 0);
    MissingChar("int", "*", 0);
  }

  /** `char*` meets none of the rules, so it converts to itself */
  lemma CharPtrConvertsToItself()
    ensures ParamConvertJs("char*") == "char*"
  {
    ContainsAt("char*", "char*", 0);
    MissingChar("char*", "int", 0);
    MissingChar("char*", "size_t", 0);
    MissingChar("char*", "Layer2D", 0);
    MissingChar("char*", "LightType", 0);
    MissingChar("char*", "BlendMode", 0);
    MissingChar("char*", "Ptr", 0);
    MissingChar("char*", "std::string", 0);
  }

  /** Converting an already converted type changes nothing */
  lemma ParamConvertJsIdempotent(t: string)
    ensures ParamConvertJs(ParamConvertJs(t)) == ParamConvertJs(t)
  {
    VoidPtrConvertsToItself();
    IntConvertsToItself();
    CharPtrConvertsToItself();
  }

  /** The names an expanded vector's components carry, in order */
  const VecNames: seq<string> := ["vec_x", "vec_y", "vec_z"]

  /** The constructor call that passes the first `n` components back as one vector */
  function VectorCall(n: int): string
    requires n == 2 || n == 3
  {
    (if n == 2 then "Vector2f" else "Vector3f") + "(" + Join(VecNames[..n], ", ") + ")"
  }

  /**
   * `get_vector_param`: for a run of 2 or 3 components, the vector
   * constructor applied to exactly those component names, followed by the
   * separator; any other run length gives nothing.
   */
  function GetVectorParam(vectorLen: int): (r: string)
    ensures vectorLen == 2 || vectorLen == 3 ==> r == VectorCall(vectorLen) + ", "
    ensures vectorLen != 2 && vectorLen != 3 ==> r == ""
  {
    if vectorLen == 2 then VectorCallTwo(); "Vector2f(vec_x, vec_y), "
    else if vectorLen == 3 then VectorCallThree(); "Vector3f(vec_x, vec_y, vec_z), "
    else ""
  }

  lemma VectorCallTwo()
    ensures VectorCall(2) + ", " == "Vector2f(vec_x, vec_y), "
  {
    assert VecNames[..2] == ["vec_x", "vec_y"];
    JoinTwo("vec_x", "vec_y", ", ");
  }

  lemma VectorCallThree()
    ensures VectorCall(3) + ", " == "Vector3f(vec_x, vec_y, vec_z), "
  {
    assert VecNames[..3] == ["vec_x", "vec_y", "vec_z"];
    JoinThree("vec_x", "vec_y", "vec_z", ", ");
  }

  lemma JoinTwo(a: string, b: string, sep: string)
    ensures Join([a, b], sep) == a + sep + b
  {
    assert [a, b][1..] == [b];
  }

  lemma JoinThree(a: string, b: string, c: string, sep: string)
    ensures Join([a, b, c], sep) == a + sep + b + sep + c
  {
    assert [a, b, c][1..] == [b, c];
    JoinTwo(b, c, sep);
  }

  /**
   * A parameter split at its last space: the name is the stripped text after
   * it, the type the stripped text before it (empty when there is no space).
   */
  function SplitParam(c: string): (p: Param)
    ensures ' ' !in p.name
    ensures ' ' !in c ==> p == Param("", Strip(c))
  {
    SplitParamNames(c);
    Param(Strip(c[..RFindChar(c, ' ') + 1]), Strip(c[RFindChar(c, ' ') + 1..]))
  }

  lemma SplitParamNames(c: string)
    ensures ' ' !in Strip(c[RFindChar(c, ' ') + 1..])
    ensures ' ' !in c ==> c[..RFindChar(c, ' ') + 1] == "" && c[RFindChar(c, ' ') + 1..] == c
  {
    StripInfix(c[RFindChar(c, ' ') + 1..]);
  }

  /** The split falls just after the last space */
  lemma SplitParamAtLastSpace(c: string, k: int)
    requires 0 <= k < |c| && c[k] == ' ' && ' ' !in c[k + 1..]
    ensures SplitParam(c) == Param(Strip(c[..k + 1]), Strip(c[k + 1..]))
  {
    RFindCharLast(c, ' ', k);
    SplitParamIs(c, k + 1);
  }

  lemma SplitParamIs(c: string, idx: int)
    requires 0 <= idx <= |c| && idx == RFindChar(c, ' ') + 1
    ensures SplitParam(c) == Param(Strip(c[..idx]), Strip(c[idx..]))
  {
  }

  /**
   * A parameter as the JavaScript stub sees it: a '*' anywhere in the name
   * adds '*' to the type while the name keeps it (its `removeprefix` result
   * is dropped), a '&' in the name adds '&' to the type and the name loses
   * its first character; the type is then converted for the FFI.
   */
  function JsParam(c: string): (r: Param)
    ensures var p := SplitParam(c);
      r.name == (if Contains(p.name, "&") then SliceFrom(p.name, 1) else p.name)
    ensures var p := SplitParam(c);
      var withStar := if Contains(p.name, "*") then p.ty + "*" else p.ty;
      r.ty == ParamConvertJs(if Contains(p.name, "&") then withStar + "&" else withStar)
    ensures r.ty in {"void*", "int", "char*"} || !Contains(r.ty, "*") || Contains(r.ty, "char*")
  {
    var p := SplitParam(c);
    var ty := if Contains(p.name, "*") then p.ty + "*" else p.ty;
    var q := if Contains(p.name, "&") then Param(ty + "&", SliceFrom(p.name, 1)) else Param(ty, p.name);
    Param(ParamConvertJs(q.ty), q.name)
  }

  /**
   * A parameter as the C++ wrapper declares it: a leading '*' of the name
   * adds '*' to the type and stays in the name, a leading '&' moves to the
   * type; the result then goes through `param_convert_cpp`, so the name
   * gains "_sp" exactly when the declared type is a smart pointer.
   */
  function CppParam(c: string): (r: Param)
    ensures var p := SplitParam(c);
      var n := if StartsWith(p.name, "&") then SliceFrom(p.name, 1) else p.name;
      var ty := if StartsWith(p.name, "*") then p.ty + "*" else if StartsWith(p.name, "&") then p.ty + "&" else p.ty;
      && r == ParamConvertCpp(Param(ty, n))
      && (r.name == n + "_sp" <==> Contains(p.ty, "Ptr"))
    ensures StartsWith(SplitParam(c).name, "*") ==> StartsWith(r.name, "*")
  {
    var p := SplitParam(c);
    AppendContains(p.ty, '*', "Ptr");
    AppendContains(p.ty, '&', "Ptr");
    var ty := if StartsWith(p.name, "*") then p.ty + "*" else p.ty;
    var q := if StartsWith(p.name, "&") then Param(ty + "&", SliceFrom(p.name, 1)) else Param(ty, p.name);
    ParamConvertCpp(q)
  }

  /**
   * The JavaScript return type: typed and smart pointers become `void*`,
   * every other type is kept.
   */
  function JsReturnType(rt: string): (r: string)
    ensures TypedPointer(rt) ==> r == "void*"
    ensures Contains(rt, "Ptr") ==> r == "void*"
    ensures !TypedPointer(rt) && !Contains(rt, "Ptr") ==> r == rt
    ensures !Contains(r, "Ptr")
    ensures Contains(r, "*") ==> r == "void*" || Contains(r, "char*")
  {
    MissingChar("void*", "Ptr", 0);
    var r1 := if TypedPointer(rt) then "void*" else rt;
    if Contains(r1, "Ptr") then "void*" else r1
  }

  function Types(ps: seq<Param>): (r: seq<string>)
    ensures |r| == |ps| && forall i :: 0 <= i < |ps| ==> r[i] == ps[i].ty
  {
    seq(|ps|, i requires 0 <= i < |ps| => ps[i].ty)
  }

  function Names(ps: seq<Param>): (r: seq<string>)
    ensures |r| == |ps| && forall i :: 0 <= i < |ps| ==> r[i] == ps[i].name
  {
    seq(|ps|, i requires 0 <= i < |ps| => ps[i].name)
  }

  lemma ListsSnoc(ps: seq<Param>, i: int)
    requires 0 <= i < |ps|
    ensures Types(ps[..i + 1]) == Types(ps[..i]) + [ps[i].ty]
    ensures Names(ps[..i + 1]) == Names(ps[..i]) + [ps[i].name]
    ensures Declarations(ps[..i + 1]) == Declarations(ps[..i]) + [ps[i].ty + " " + ps[i].name]
  {
  }

  /** The parameters as the JavaScript stub sees them */
  function JsParams(params: seq<string>): (r: seq<Param>)
    ensures |r| == |params| && forall i :: 0 <= i < |params| ==> r[i] == JsParam(params[i])
  {
    seq(|params|, i requires 0 <= i < |params| => JsParam(params[i]))
  }

  /** What `gen_js_file` writes for one function: the stub header, the `ffi` line and the call */
  function JsText(returnType: string, funcName: string, params: seq<string>, namespace: string): string
  {
    var simple := Join(Types(JsParams(params)), ", ");
    var values := Join(Names(JsParams(params)), ", ");
    var header := if |params| == 0 then funcName + ": function() {\n"
                  else funcName + ": function(" + values + ") {\n";
    header
    + "    let f = ffi(\"" + JsReturnType(returnType) + " " + funcName + "(" + simple + ")\");\n"
    + "    return f(" + values + ");\n"
    + (if |namespace| > 0 then "},\n" else "}\n")
  }

  /**
   * The parameter loop of `gen_js_file`: accumulates "type, " and "name, "
   * pieces and cuts the last separator off, which is each list joined by
   * ", " with no trailing separator.
   */
  method JsParamLists(params: seq<string>) returns (simple: string, values: string)
    ensures simple == Join(Types(JsParams(params)), ", ")
    ensures values == Join(Names(JsParams(params)), ", ")
  {
    simple := "";
    values := "";
    ghost var ps := JsParams(params);
    for i := 0 to |params|
      invariant simple == Trailing(Types(ps[..i]), ", ")
      invariant values == Trailing(Names(ps[..i]), ", ")
    {
      var p := JsParam(params[i]);
      ListsSnoc(ps, i);
      TrailingSnoc(Types(ps[..i]), p.ty, ", ");
      TrailingSnoc(Names(ps[..i]), p.name, ", ");
      simple := simple + p.ty + ", ";
      values := values + p.name + ", ";
    }
    assert ps[..|params|] == ps;
    DropTrailing(Types(ps), ", ");
    DropTrailing(Names(ps), ", ");
    simple := DropLast(simple, 2);
    values := DropLast(values, 2);
  }

  /** `gen_js_file`: the stub for one function; a function without parameters gets "function()" */
  method GenJsFile(returnType: string, funcName: string, params: seq<string>, namespace: string)
    returns (text: string)
    ensures text == JsText(returnType, funcName, params, namespace)
  {
    var rt := JsReturnType(returnType);
    var simple, values := JsParamLists(params);
    if |params| == 0 {
      text := funcName + ": function() {\n";
    } else {
      text := funcName + ": function(" + values + ") {\n";
    }
    text := text + "    let f = ffi(\"" + rt + " " + funcName + "(" + simple + ")\");\n";
    text := text + "    return f(" + values + ");\n";
    if |namespace| > 0 {
      text := text + "},\n";
    } else {
      text := text + "}\n";
    }
  }

  /** The name a non-static method is exported under */
  function BoundName(className: string, funcName: string): string {
    className + "_" + funcName
  }

  /** The object pointer parameter a non-static method is given first */
  function ObjectParam(className: string): string {
    className + "* ptr"
  }

  /** The wrapper's idea of the original name: everything after the first '_' */
  function OriginalName(funcName: string): string {
    SliceFrom(funcName, Find(funcName, "_") + 1)
  }

  /** Prefixing and recovering a method name round-trips when the class name has no '_' */
  lemma OriginalNameRoundTrip(className: string, funcName: string)
    requires !Contains(className, "_")
    ensures OriginalName(BoundName(className, funcName)) == funcName
  {
    var s := BoundName(className, funcName);
    forall j | 0 <= j < |className|
      ensures !OccursAt(s, "_", j)
    {
      OccursChar(s, '_', j);
      OccursChar(className, '_', j);
      if s[j] == '_' {
        ContainsAt(className, "_", j);
      }
    }
    OccursChar(s, '_', |className|);
    FindUnique(s, "_", |className|);
  }

  /** A class name holding '_' loses its head: `My_Node` and `draw` come back as `Node_draw` */
  lemma OriginalNameUnderscoreClass()
    ensures OriginalName(BoundName("My_Node", "draw")) == "Node_draw"
  {
    var s := BoundName("My_Node", "draw");
    assert s == "My_Node_draw";
    OccursChar(s, '_', 0);
    OccursChar(s, '_', 1);
    OccursChar(s, '_', 2);
    FindUnique(s, "_", 2);
  }

  /** The object pointer's name, read back as the second space-separated word, is "ptr" */
  lemma ObjectPointerName(className: string)
    requires !Contains(className, " ")
    ensures |Split(ObjectParam(className), " ")| == 2
    ensures Split(ObjectParam(className), " ")[1] == "ptr"
  {
    var s := ObjectParam(className);
    var k := |className| + 1;
    forall j | 0 <= j < k
      ensures !OccursAt(s, " ", j)
    {
      OccursChar(s, ' ', j);
      if j < |className| {
        OccursChar(className, ' ', j);
        if s[j] == ' ' {
          ContainsAt(className, " ", j);
        }
      }
    }
    OccursChar(s, ' ', k);
    FindUnique(s, " ", k);
    assert s[k + 1..] == "ptr";
    MissingChar("ptr", " ", 0);
  }

  /** `'vec_' in value and 'float' in type`: one component of an expanded vector */
  predicate IsVectorComponent(p: Param) {
    Contains(p.name, "vec_") && Contains(p.ty, "float")
  }

  /** The argument a wrapper passes for an ordinary parameter: smart pointers are rebuilt from the raw one */
  function CallArg(p: Param): string {
    if EndsWith(p.ty, "*") && EndsWith(p.name, "_sp") then RemoveSuffix(p.ty, "*") + "Ptr(" + p.name + ")"
    else p.name
  }

  /** The call-argument string built so far and the length of the current run of vector components */
  datatype CallArgs = CallArgs(text: string, vectorLen: nat)

  /** One turn of the call-argument loop of `gen_cpp_file` */
  function CallStep(st: CallArgs, p: Param, isLast: bool): CallArgs {
    if IsVectorComponent(p) then
      var n := st.vectorLen + 1;
      CallArgs(if isLast then st.text + GetVectorParam(n) else st.text, n)
    else
      var flushed := if st.vectorLen > 0 then st.text + GetVectorParam(st.vectorLen) else st.text;
      CallArgs(flushed + CallArg(p) + ", ", 0)
  }

  /** The state the call-argument loop ends in, started in `st` on the parameters `ps` that remain */
  function Resume(st: CallArgs, ps: seq<Param>): CallArgs
    decreases |ps|
  {
    if |ps| == 0 then st else Resume(CallStep(st, ps[0], |ps| == 1), ps[1..])
  }

  /** The wrapper's declared parameters, converted */
  function CppParams(params: seq<string>): (r: seq<Param>)
    ensures |r| == |params| && forall i :: 0 <= i < |params| ==> r[i] == CppParam(params[i])
  {
    Map(CppParam, params)
  }

  /** `f` applied to every element, in order */
  function Map<A, B>(f: A -> B, xs: seq<A>): (r: seq<B>)
    ensures |r| == |xs| && forall i :: 0 <= i < |xs| ==> r[i] == f(xs[i])
  {
    seq(|xs|, i requires 0 <= i < |xs| => f(xs[i]))
  }

  lemma MapPrefix<A, B>(f: A -> B, xs: seq<A>, n: nat)
    requires n <= |xs|
    ensures Map(f, xs[..n]) == Map(f, xs)[..n]
  {
  }

  lemma MapAppend<A, B>(f: A -> B, xs: seq<A>, ys: seq<A>)
    ensures Map(f, xs + ys) == Map(f, xs) + Map(f, ys)
  {
    var l, r := Map(f, xs + ys), Map(f, xs) + Map(f, ys);
    forall i | 0 <= i < |xs| + |ys| ensures l[i] == r[i] {
      if i < |xs| {
        assert (xs + ys)[i] == xs[i];
      } else {
        assert (xs + ys)[i] == ys[i - |xs|];
      }
    }
  }

  function Declarations(ps: seq<Param>): (r: seq<string>)
    ensures |r| == |ps| && forall i :: 0 <= i < |ps| ==> r[i] == ps[i].ty + " " + ps[i].name
  {
    seq(|ps|, i requires 0 <= i < |ps| => ps[i].ty + " " + ps[i].name)
  }

  function CppReturnType(rt: string): string {
    if Contains(rt, "Ptr") then ReplaceAll(rt, "Ptr", "*") else rt
  }

  /** What `gen_cpp_file` produces: the wrapper text, or the IndexError of a method without an object pointer */
  datatype CppEmit = Emitted(text: string) | MissingObjectPointer

  /**
   * The wrapper for one function: nothing outside a class; otherwise a C
   * function with the converted parameters whose body calls the original
   * static function or method, returning its value unless the return type
   * mentions `void`. The object pointer of a method is not passed on.
   */
  function CppText(className: string, isStatic: bool, returnType: string, funcName: string,
                   params: seq<string>): CppEmit
  {
    if |className| == 0 then Emitted("")
    else if !isStatic && (|params| == 0 || |Split(params[0], " ")| < 2) then MissingObjectPointer
    else
      var rt := CppReturnType(returnType);
      var ps := CppParams(params);
      var format := Join(Declarations(ps), ", ");
      var call := DropLast(Resume(CallArgs("", 0), Callees(ps, isStatic)).text, 2);
      var header := if |params| == 0 then rt + " " + funcName + "() {\n"
                    else rt + " " + funcName + "(" + format + ") {\n";
      var ret := if Contains(rt, "void") then "" else "return ";
      var callee := if isStatic then className + "::" else Split(params[0], " ")[1] + "->";
      Emitted(header + "    " + ret + callee + OriginalName(funcName) + "(" + call + ");\n" + "}\n")
  }

  /** The parameters whose arguments the wrapper passes on: all but the object pointer of a method */
  function Callees(ps: seq<Param>, isStatic: bool): seq<Param> {
    if isStatic || |ps| == 0 then ps else ps[1..]
  }

  lemma ResumeStep(st: CallArgs, ps: seq<Param>, i: int)
    requires 0 <= i < |ps|
    ensures Resume(st, ps[i..]) == Resume(CallStep(st, ps[i], i == |ps| - 1), ps[i + 1..])
  {
    assert ps[i..][0] == ps[i] && ps[i..][1..] == ps[i + 1..];
  }

  /** The body of the call-argument loop of `gen_cpp_file` for one parameter */
  method PassArgument(callStr: string, vectorLen: nat, p: Param, isLast: bool) returns (text: string, len: nat)
    ensures CallArgs(text, len) == CallStep(CallArgs(callStr, vectorLen), p, isLast)
  {
    text, len := callStr, vectorLen;
    if IsVectorComponent(p) {
      len := len + 1;
      if isLast {
        text := text + GetVectorParam(len);
      }
    } else {
      if len > 0 {
        text := text + GetVectorParam(len);
        len := 0;
      }
      text := text + CallArg(p) + ", ";
    }
  }

  /**
   * The parameter loop of `gen_cpp_file`, over the converted parameters:
   * the declaration list joined by ", ", and the call arguments as the
   * vector-regrouping loop leaves them with the last separator cut off.
   */
  method WrapperLists(ps: seq<Param>, isStatic: bool) returns (formatStr: string, callStr: string)
    ensures formatStr == Join(Declarations(ps), ", ")
    ensures callStr == DropLast(Resume(CallArgs("", 0), Callees(ps, isStatic)).text, 2)
  {
    formatStr := "";
    callStr := "";
    var vectorLen: nat := 0;
    ghost var start := if isStatic then 0 else 1;
    for i := 0 to |ps|
      invariant formatStr == Trailing(Declarations(ps[..i]), ", ")
      invariant i <= start ==> callStr == "" && vectorLen == 0
      invariant start <= i ==>
        Resume(CallArgs(callStr, vectorLen), ps[i..]) == Resume(CallArgs("", 0), ps[start..])
    {
      var p := ps[i];
      var declaration := p.ty + " " + p.name;
      ListsSnoc(ps, i);
      TrailingSnoc(Declarations(ps[..i]), declaration, ", ");
      formatStr := formatStr + declaration + ", ";
      if i > 0 || isStatic {
        ResumeStep(CallArgs(callStr, vectorLen), ps, i);
        callStr, vectorLen := PassArgument(callStr, vectorLen, p, i == |ps| - 1);
      }
    }
    assert ps[..|ps|] == ps;
    DropTrailing(Declarations(ps), ", ");
    formatStr := DropLast(formatStr, 2);
    callStr := DropLast(callStr, 2);
  }

  /** `gen_cpp_file`: the wrapper for one function */
  method GenCppFile(className: string, isStatic: bool, returnType: string, funcName: string,
                    params: seq<string>) returns (out: CppEmit)
    ensures out == CppText(className, isStatic, returnType, funcName, params)
  {
    if |className| == 0 {
      return Emitted("");
    }
    var rt := returnType;
    if Contains(rt, "Ptr") {
      rt := ReplaceAll(rt, "Ptr", "*");
    }
    assert rt == CppReturnType(returnType);
    var callee := className + "::";
    if !isStatic {
      if |params| == 0 {
        return MissingObjectPointer;
      }
      var parts := Split(params[0], " ");
      if |parts| < 2 {
        return MissingObjectPointer;
      }
      callee := parts[1] + "->";
    }
    var origin := OriginalName(funcName);
    var ps := CppParams(params);
    var formatStr, callStr := WrapperLists(ps, isStatic);
    var header: string;
    if |params| == 0 {
      header := rt + " " + funcName + "() {\n";
    } else {
      header := rt + " " + funcName + "(" + formatStr + ") {\n";
    }
    var returnStr := "";
    if !Contains(rt, "void") {
      returnStr := "return ";
    }
    out := Emitted(header + "    " + returnStr + callee + origin + "(" + callStr + ");\n" + "}\n");
  }

  /** A parameter of the declaration before vector expansion */
  datatype Arg = Plain(p: Param) | Vector2 | Vector3

  function Dim(a: Arg): int
    requires !a.Plain?
  {
    if a.Vector2? then 2 else 3
  }

  /** The "float vec_*" components a vector parameter expands into, as converted parameters */
  function Components(a: Arg): seq<Param>
    requires !a.Plain?
  {
    var comps := [Param("float", "vec_x"), Param("float", "vec_y"), Param("float", "vec_z")];
    comps[..Dim(a)]
  }

  /** The converted parameters after every vector is expanded */
  function Flatten(args: seq<Arg>): seq<Param>
    decreases |args|
  {
    if |args| == 0 then []
    else (if args[0].Plain? then [args[0].p] else Components(args[0])) + Flatten(args[1..])
  }

  /** The argument the wrapper is meant to pass for each declared parameter */
  function ArgText(a: Arg): string {
    if a.Plain? then CallArg(a.p) else VectorCall(Dim(a))
  }

  function ArgTexts(args: seq<Arg>): (r: seq<string>)
    ensures |r| == |args| && forall i :: 0 <= i < |args| ==> r[i] == ArgText(args[i])
  {
    seq(|args|, i requires 0 <= i < |args| => ArgText(args[i]))
  }

  /**
   * The declarations whose vectors regroup: no ordinary parameter looks like
   * a vector component, and no vector parameter directly follows another.
   */
  predicate Regroupable(args: seq<Arg>)
    decreases |args|
  {
    |args| == 0
    || ((args[0].Plain? ==> !IsVectorComponent(args[0].p))
        && (!args[0].Plain? && |args| > 1 ==> args[1].Plain?)
        && Regroupable(args[1..]))
  }

  lemma ComponentsAreVectorComponents(a: Arg)
    requires !a.Plain?
    ensures forall k :: 0 <= k < |Components(a)| ==> IsVectorComponent(Components(a)[k])
  {
    ContainsAt("float", "float", 0);
    ContainsAt("vec_x", "vec_", 0);
    ContainsAt("vec_y", "vec_", 0);
    ContainsAt("vec_z", "vec_", 0);
  }

  /** A vector ending the parameter list is passed as one constructor call */
  lemma VectorRunLast(acc: string, a: Arg)
    requires !a.Plain?
    ensures Resume(CallArgs(acc, 0), Components(a)).text == acc + GetVectorParam(Dim(a))
  {
    ComponentsAreVectorComponents(a);
    var c := Components(a);
    if a.Vector2? {
      assert Resume(CallArgs(acc, 0), c) == Resume(CallArgs(acc, 1), c[1..]);
      assert Resume(CallArgs(acc, 1), c[1..]) == CallArgs(acc + GetVectorParam(2), 2);
    } else {
      assert Resume(CallArgs(acc, 0), c) == Resume(CallArgs(acc, 1), c[1..]);
      assert Resume(CallArgs(acc, 1), c[1..]) == Resume(CallArgs(acc, 2), c[2..]);
      assert Resume(CallArgs(acc, 2), c[2..]) == CallArgs(acc + GetVectorParam(3), 3);
    }
  }

  /** A vector followed by an ordinary parameter is passed as one constructor call before it */
  lemma VectorRunThen(acc: string, a: Arg, tail: seq<Param>)
    requires !a.Plain? && |tail| > 0 && !IsVectorComponent(tail[0])
    ensures Resume(CallArgs(acc, 0), Components(a) + tail)
            == Resume(CallArgs(acc + GetVectorParam(Dim(a)), 0), tail)
  {
    ComponentsAreVectorComponents(a);
    ResumeRun(acc, 0, Components(a), tail);
    ResumeFlush(acc, Dim(a), tail);
  }

  /** A run of vector components followed by more parameters only lengthens the pending run */
  lemma {:induction false} ResumeRun(acc: string, k: nat, run: seq<Param>, tail: seq<Param>)
    requires |tail| > 0
    requires forall i :: 0 <= i < |run| ==> IsVectorComponent(run[i])
    ensures Resume(CallArgs(acc, k), run + tail) == Resume(CallArgs(acc, k + |run|), tail)
    decreases |run|
  {
    if |run| > 0 {
      ConsAppend(run, tail);
      ResumeComponent(acc, k, run + tail);
      ResumeRun(acc, k + 1, run[1..], tail);
      assert k + 1 + |run[1..]| == k + |run|;
    } else {
      assert run + tail == tail;
    }
  }

  /** A vector component that is not the last parameter only lengthens the run */
  lemma ResumeComponent(acc: string, k: nat, ps: seq<Param>)
    requires |ps| > 1 && IsVectorComponent(ps[0])
    ensures Resume(CallArgs(acc, k), ps) == Resume(CallArgs(acc, k + 1), ps[1..])
  {
  }

  lemma ConsAppend<T>(xs: seq<T>, ys: seq<T>)
    requires |xs| > 0
    ensures (xs + ys)[0] == xs[0] && (xs + ys)[1..] == xs[1..] + ys
  {
  }

  /** An ordinary parameter flushes the pending run before its own argument */
  lemma ResumeFlush(acc: string, n: nat, ps: seq<Param>)
    requires n > 0 && |ps| > 0 && !IsVectorComponent(ps[0])
    ensures Resume(CallArgs(acc, n), ps) == Resume(CallArgs(acc + GetVectorParam(n), 0), ps)
  {
  }

  /** The call-argument loop passes every declared parameter in turn, vectors regrouped */
  lemma {:induction false} RegroupFrom(acc: string, args: seq<Arg>)
    requires Regroupable(args)
    ensures Resume(CallArgs(acc, 0), Flatten(args)).text == acc + Trailing(ArgTexts(args), ", ")
    decreases |args|
  {
    if |args| > 0 {
      var a := args[0];
      var rest := args[1..];
      var piece := ArgText(a) + ", ";
      ArgTextsCons(args);
      TrailingCons(ArgText(a), ArgTexts(rest), ", ");
      Concat3(acc, piece, Trailing(ArgTexts(rest), ", "));
      if a.Plain? {
        PlainStep(acc, args);
        RegroupFrom(acc + piece, rest);
      } else if |rest| == 0 {
        assert Flatten(args) == Components(a) + [] == Components(a);
        VectorRunLast(acc, a);
        assert piece == GetVectorParam(Dim(a));
        assert Trailing(ArgTexts(rest), ", ") == "";
        assert acc + piece + "" == acc + piece;
      } else {
        VectorStep(acc, args);
        RegroupFrom(acc + piece, rest);
      }
    }
  }

  lemma ArgTextsCons(args: seq<Arg>)
    requires |args| > 0
    ensures ArgTexts(args) == [ArgText(args[0])] + ArgTexts(args[1..])
  {
  }

  lemma Concat3(a: string, b: string, c: string)
    ensures a + b + c == a + (b + c)
  {
  }

  /** An ordinary parameter is passed as itself */
  lemma PlainStep(acc: string, args: seq<Arg>)
    requires |args| > 0 && args[0].Plain? && Regroupable(args)
    ensures Resume(CallArgs(acc, 0), Flatten(args))
            == Resume(CallArgs(acc + (ArgText(args[0]) + ", "), 0), Flatten(args[1..]))
  {
    var f := Flatten(args);
    var p := args[0].p;
    assert f == [p] + Flatten(args[1..]);
    assert f[0] == p && f[1..] == Flatten(args[1..]);
    assert !IsVectorComponent(p);
    Concat3(acc, CallArg(p), ", ");
    assert CallStep(CallArgs(acc, 0), p, |f| == 1) == CallArgs(acc + (ArgText(args[0]) + ", "), 0);
  }

  /** A vector followed by more parameters is passed as one constructor call */
  lemma VectorStep(acc: string, args: seq<Arg>)
    requires |args| > 1 && !args[0].Plain? && Regroupable(args)
    ensures Resume(CallArgs(acc, 0), Flatten(args))
            == Resume(CallArgs(acc + (ArgText(args[0]) + ", "), 0), Flatten(args[1..]))
  {
    var rest := args[1..];
    assert rest[0].Plain? && !IsVectorComponent(rest[0].p);
    assert Flatten(rest) == [rest[0].p] + Flatten(rest[1..]);
    assert Flatten(args) == Components(args[0]) + Flatten(rest);
    VectorRunThen(acc, args[0], Flatten(rest));
  }

  /**
   * The wrapper's call arguments are the declared parameters joined by ", ",
   * each vector passed as one `Vector2f`/`Vector3f` of its components and
   * each smart pointer rebuilt from its raw pointer.
   */
  lemma Regroup(args: seq<Arg>)
    requires Regroupable(args)
    ensures DropLast(Resume(CallArgs("", 0), Flatten(args)).text, 2) == Join(ArgTexts(args), ", ")
  {
    RegroupFrom("", args);
    DropTrailing(ArgTexts(args), ", ");
  }

  /** As written, two adjacent `Vector2` parameters form one run of four components, which regroups to nothing */
  lemma AdjacentVectorsLost()
    ensures DropLast(Resume(CallArgs("", 0), Flatten([Vector2, Vector2])).text, 2) == ""
  {
    var q := Flatten([Vector2, Vector2]);
    assert q == Components(Vector2) + Components(Vector2);
    ComponentsAreVectorComponents(Vector2);
    assert Resume(CallArgs("", 0), q) == Resume(CallArgs("", 1), q[1..]);
    assert Resume(CallArgs("", 1), q[1..]) == Resume(CallArgs("", 2), q[2..]);
    assert Resume(CallArgs("", 2), q[2..]) == Resume(CallArgs("", 3), q[3..]);
    assert Resume(CallArgs("", 3), q[3..]) == CallArgs("", 4);
  }
}

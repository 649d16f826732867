/** The JSON-query to SQL translator (LiteCore/Query/QueryParser.cc): a query
    is a JSON tree whose arrays are operations ["op", operand, ...]; each
    operation is looked up in the operator table and its handler writes SQL,
    parenthesising by precedence against a stack of enclosing operations.

    Each handler returns the SQL text it writes together with the parser
    state it leaves behind; a thrown error becomes a `Failure`. */
module QueryParser {
  import opened Wrappers
  import opened JsonValue
  import opened SqlText
  import opened QueryOps

  /** The constructor arguments and the property-path prefix of a parser. */
  datatype Config = Config(tableName: string, bodyColumn: string, propertyPath: string)

  /** An entry of the operation context stack; only the precedence is read. */
  datatype Frame = Frame(name: string, precedence: int)

  /** The mutable parts of a parser: the operation context, the ANY/EVERY
      variables in scope, the query parameters seen, and the full-text
      properties (the FTS tables are numbered by position, from 1). */
  datatype State = State(context: seq<Frame>, variables: set<string>, parameters: set<string>, fts: seq<string>)

  /** `fail(message)` raises an InvalidQuery error; the nested SELECT writer
      is not part of this model and reports `SelectNotModelled`. */
  datatype QueryError = Invalid(message: string) | SelectNotModelled

  /** The SQL text an operation writes and the state it leaves. */
  datatype Out = Out(sql: string, st: State)

  /** `kOuterOperation`, the bottom of the context stack. */
  const OuterFrame := Frame("", -1)

  predicate Valid(st: State) {
    |st.context| >= 1
  }

  function Top(st: State): Frame
    requires Valid(st)
  {
    st.context[|st.context| - 1]
  }

  function Push(st: State, f: Frame): (r: State)
    ensures Valid(r) && Top(r) == f && Pop(r) == st
  {
    st.(context := st.context + [f])
  }

  function Pop(st: State): State
    requires Valid(st)
  {
    st.(context := st.context[..|st.context| - 1])
  }

  predicate NoDup(s: seq<string>) {
    forall i, j :: 0 <= i < j < |s| ==> s[i] != s[j]
  }

  /** What every operation leaves of the state below its own frame: the
      variables in scope are the same, parameters and FTS properties only
      accumulate, and the FTS list stays duplicate-free. */
  predicate Evolves(a: State, b: State) {
    b.variables == a.variables && a.parameters <= b.parameters && a.fts <= b.fts &&
    (NoDup(a.fts) ==> NoDup(b.fts))
  }

  predicate Keeps(a: State, b: State) {
    Evolves(a, b) && b.context == a.context
  }

  /** The context below the top frame is untouched and the top frame keeps
      its precedence (the fallback handler renames the top frame). */
  predicate KeepsBelowTop(a: State, b: State)
    requires Valid(a)
  {
    Evolves(a, b) && |b.context| == |a.context| &&
    b.context[..|a.context| - 1] == a.context[..|a.context| - 1] &&
    Top(a).precedence == b.context[|b.context| - 1].precedence
  }

  function Wrap(paren: bool, s: string): string {
    if paren then "(" + s + ")" else s
  }

  // ---------------------------------------------------------------------------
  // Property paths
  // ---------------------------------------------------------------------------

  /** Whether operand `item` at position `n` is acceptable in a property
      path: a string, or (past the first position) a one-integer array. */
  predicate SegmentOk(item: Json, n: nat) {
    if item.JArray? then n > 0 && |item.items| == 1 && item.items[0].JInt?
    else item.JString?
  }

  /** The text one operand contributes to a property path. */
  function Segment(item: Json, n: nat): (r: Result<string, QueryError>)
    ensures r.Success? <==> SegmentOk(item, n)
    ensures r.Success? && item.JArray? ==> r.value == "[" + IntToString(item.items[0].i) + "]"
    ensures r.Success? && !item.JArray? ==> r.value == (if n > 0 then "." else "") + item.s
  {
    if item.JArray? then
      if n == 0 then Failure(Invalid("Property path can't start with an array index"))
      else if |item.items| != 1 then Failure(Invalid("Property array index must have exactly one item"))
      else if !item.items[0].JInt? then Failure(Invalid("Property array index must be an integer"))
      else Success("[" + IntToString(item.items[0].i) + "]")
    else
      match AsString(item)
      case None => Failure(Invalid("Invalid JSON value in property path"))
      case Some(name) => Success((if n > 0 then "." else "") + name)
  }

  /** Every operand is usable at its position in a property path. */
  predicate SegmentsOk(operands: seq<Json>) {
    forall n :: 0 <= n < |operands| ==> SegmentOk(operands[n], n)
  }

  /** The operands are usable iff all but the last are, and the last is. */
  lemma SegmentsOkSnoc(operands: seq<Json>)
    requires |operands| > 0
    ensures var init := operands[..|operands| - 1];
      SegmentsOk(operands) <==> SegmentsOk(init) && SegmentOk(operands[|operands| - 1], |operands| - 1)
    ensures |operands| > 1 ==> operands[..|operands| - 1][0] == operands[0]
  {
    var init := operands[..|operands| - 1];
    assert forall n :: 0 <= n < |init| ==> init[n] == operands[n];
  }

  /** `propertyFromOperands`: the operands in order, names joined by '.'
      and indexes written as "[n]"; the first bad operand is reported. */
  function PropertyFromOperands(operands: seq<Json>): (r: Result<string, QueryError>)
    ensures r.Success? <==> SegmentsOk(operands)
    ensures |operands| > 0 && operands[0].JArray? ==>
      r == Failure(Invalid("Property path can't start with an array index"))
    decreases |operands|
  {
    if |operands| == 0 then Success("")
    else
      var init := operands[..|operands| - 1];
      SegmentsOkSnoc(operands);
      var prefix :- PropertyFromOperands(init);
      var seg :- Segment(operands[|operands| - 1], |operands| - 1);
      Success(prefix + seg)
  }

  /** The path text an operand stands for when it is a name or an index. */
  function SegmentName(item: Json): string {
    if item.JArray? && |item.items| == 1 && item.items[0].JInt? then "[" + IntToString(item.items[0].i) + "]"
    else if item.JString? then item.s
    else ""
  }

  /** Joins path components one after another with `appendPaths`. */
  function JoinPath(names: seq<string>): string
    decreases |names|
  {
    if |names| == 0 then "" else AppendPaths(JoinPath(names[..|names| - 1]), names[|names| - 1])
  }

  /** Operands that are plain names (not rooted, not bracketed) or indexes. */
  predicate PathOperands(operands: seq<Json>) {
    |operands| > 0 && operands[0].JString? && PlainName(operands[0].s) &&
    forall n :: 0 <= n < |operands| ==>
      (operands[n].JString? && PlainName(operands[n].s)) ||
      (n > 0 && operands[n].JArray? && |operands[n].items| == 1 && operands[n].items[0].JInt?)
  }

  /** The path components the operands stand for, in order. */
  function SegmentNames(operands: seq<Json>): (r: seq<string>)
    ensures |r| == |operands|
    decreases |operands|
  {
    if |operands| == 0 then []
    else SegmentNames(operands[..|operands| - 1]) + [SegmentName(operands[|operands| - 1])]
  }

  /** `propertyFromOperands` and `appendPaths` agree: the path built from
      the operands is the components joined one by one with `appendPaths`. */
  lemma {:induction false} PropertyFromOperandsIsJoinPath(operands: seq<Json>)
    requires PathOperands(operands)
    ensures PropertyFromOperands(operands) == Success(JoinPath(SegmentNames(operands)))
    ensures |JoinPath(SegmentNames(operands))| > 0
    decreases |operands|
  {
    var k := |operands| - 1;
    var init := operands[..k];
    var last := operands[k];
    var seg := Segment(last, k);
    assert SegmentOk(last, k);
    PropertyFromOperandsSnoc(operands);
    if k == 0 {
      assert PropertyFromOperands(init) == Success("");
      assert SegmentNames(operands) == [last.s];
      assert JoinPath(SegmentNames(operands)) == last.s by {
        JoinPathSnoc(SegmentNames(operands));
      }
      assert seg.value == last.s;
    } else {
      assert PathOperands(init) by {
        assert forall n :: 0 <= n < |init| ==> init[n] == operands[n];
      }
      PropertyFromOperandsIsJoinPath(init);
      var prefix := JoinPath(SegmentNames(init));
      var names := SegmentNames(operands);
      JoinPathSnoc(names);
      assert names[..k] == SegmentNames(init);
      assert names[k] == SegmentName(last);
      AppendSegment(prefix, last, k);
    }
  }

  lemma PropertyFromOperandsSnoc(operands: seq<Json>)
    requires |operands| > 0
    requires PropertyFromOperands(operands[..|operands| - 1]).Success?
    requires SegmentOk(operands[|operands| - 1], |operands| - 1)
    ensures PropertyFromOperands(operands) ==
      Success(PropertyFromOperands(operands[..|operands| - 1]).value + Segment(operands[|operands| - 1], |operands| - 1).value)
    ensures SegmentNames(operands) == SegmentNames(operands[..|operands| - 1]) + [SegmentName(operands[|operands| - 1])]
  {
  }

  lemma JoinPathSnoc(names: seq<string>)
    requires |names| > 0
    ensures JoinPath(names) == AppendPaths(JoinPath((names[..|names| - 1])), names[|names| - 1])
  {
  }

  /** Appending one more name or index operand to a non-empty path. */
  lemma AppendSegment(prefix: string, last: Json, k: nat)
    requires |prefix| > 0 && k > 0
    requires (last.JString? && PlainName(last.s)) || (last.JArray? && |last.items| == 1 && last.items[0].JInt?)
    ensures Segment(last, k).Success?
    ensures AppendPaths(prefix, SegmentName(last)) == prefix + Segment(last, k).value
  {
    var name := SegmentName(last);
    AppendPathsShape(prefix, name);
    assert StripRoot(name) == name;
    if last.JArray? {
      assert Separator(prefix, name) == "";
      assert prefix + "" == prefix;
    } else {
      assert Separator(prefix, name) == ".";
      Regroup3(prefix, ".", name);
    }
  }

  lemma Regroup3(a: string, b: string, c: string)
    ensures a + b + c == a + (b + c)
  {
  }

  /** An array whose first item is a string starting with '.'. */
  predicate PropertyShaped(node: Json) {
    node.JArray? && |node.items| >= 1 && node.items[0].JString? &&
    |node.items[0].s| >= 1 && node.items[0].s[0] == '.'
  }

  /** `propertyFromNode`: the path of a property node ([".", ...] or
      [".name"]), or "" when the node is not a property. Reading the first
      character of an empty operator is modelled as reading a NUL. */
  function PropertyFromNode(node: Json): (r: Result<string, QueryError>)
    ensures !node.JArray? ==> r == Success("")
    ensures !PropertyShaped(node) ==> r == Success("")
    ensures node.JArray? && |node.items| >= 1 && node.items[0] == JString(".") ==>
      r == PropertyFromOperands(node.items[1..])
    ensures (node.JArray? && |node.items| >= 1 && node.items[0].JString? &&
             |node.items[0].s| > 1 && node.items[0].s[0] == '.') ==> r == Success(node.items[0].s[1..])
  {
    if node.JArray? && |node.items| >= 1 then
      match AsString(node.items[0])
      case Some(op) =>
        if At(op, 0) == '.' then
          if |op| == 1 then PropertyFromOperands(node.items[1..]) else Success(op[1..])
        else Success("")
      case None => Success("")
    else Success("")
  }

  // ---------------------------------------------------------------------------
  // Full-text-search properties
  // ---------------------------------------------------------------------------

  /** `FTSPropertyIndex`: the 1-based position of the first occurrence of
      `path`, or 0 when it is absent. */
  function FTSPropertyIndex(fts: seq<string>, path: string): (k: nat)
    ensures k == 0 <==> path !in fts
    ensures k > 0 ==> k <= |fts| && fts[k - 1] == path && path !in fts[..k - 1]
    decreases |fts|
  {
    if |fts| == 0 then 0
    else if fts[0] == path then 1
    else
      var k := FTSPropertyIndex(fts[1..], path);
      assert fts[1..] == fts[..] [1..];
      if k == 0 then 0
      else
        assert fts[..k + 1 - 1] == [fts[0]] + fts[1..][..k - 1];
        k + 1
  }

  /** Appends `path` unless it is already listed; returns its 1-based
      position. */
  function AddPath(fts: seq<string>, path: string): (r: (seq<string>, nat))
    ensures 1 <= r.1 <= |r.0| && r.0[r.1 - 1] == path
    ensures path in fts ==> r.0 == fts
    ensures path !in fts ==> r.0 == fts + [path]
    ensures NoDup(fts) ==> NoDup(r.0)
  {
    var index := FTSPropertyIndex(fts, path);
    if index == 0 then
      assert NoDup(fts) ==> NoDup(fts + [path]) by {
        if NoDup(fts) {
          NoDupSnoc(fts, path);
        }
      }
      (fts + [path], |fts| + 1)
    else (fts, index)
  }

  lemma NoDupSnoc(s: seq<string>, x: string)
    requires NoDup(s) && x !in s
    ensures NoDup(s + [x])
  {
    forall i, j | 0 <= i < j < |s| + 1
      ensures (s + [x])[i] != (s + [x])[j]
    {
      if j == |s| {
        assert (s + [x])[i] == s[i];
      } else {
        assert (s + [x])[i] == s[i] && (s + [x])[j] == s[j];
      }
    }
  }

  /** `AddFTSPropertyIndex`: adds the full path of `property` (under the
      parser's property-path prefix) to the FTS list. */
  function AddFTSPropertyIndex(cfg: Config, fts: seq<string>, property: string): (r: (seq<string>, nat))
    ensures var p := AppendPaths(cfg.propertyPath, property);
      p in r.0 && 1 <= r.1 <= |r.0| && r.0[r.1 - 1] == p &&
      (p in fts ==> r.0 == fts && r.1 == FTSPropertyIndex(fts, p)) &&
      (p !in fts ==> r.0 == fts + [p] && r.1 == |fts| + 1)
  {
    var p := AppendPaths(cfg.propertyPath, property);
    AddPath(fts, p)
  }

  /** The position `AddPath` returns is where `FTSPropertyIndex` finds the
      path afterwards. */
  lemma AddPathIndexed(fts: seq<string>, path: string)
    ensures FTSPropertyIndex(AddPath(fts, path).0, path) == AddPath(fts, path).1
  {
    if path !in fts {
      assert (fts + [path])[..|fts|] == fts;
      FirstOccurrenceUnique(fts + [path], path, |fts| + 1);
    }
  }

  /** Adding the same path again changes nothing and gives the same
      table number. */
  lemma AddPathIdempotent(fts: seq<string>, path: string)
    ensures var (f1, i1) := AddPath(fts, path);
      AddPath(f1, path) == (f1, i1)
  {
    AddPathIndexed(fts, path);
  }

  lemma FirstOccurrenceUnique(s: seq<string>, x: string, k: nat)
    requires 1 <= k <= |s| && s[k - 1] == x && x !in s[..k - 1]
    ensures FTSPropertyIndex(s, x) == k
  {
  }

  // ---------------------------------------------------------------------------
  // Property getters
  // ---------------------------------------------------------------------------

  /** `writePropertyGetter`: "_id" and "_sequence" are the row's key and
      sequence columns (only under fl_value); rank() looks the bare
      property up in the FTS list, as written; otherwise `fn(body, 'path')`
      with the full path quoted. */
  function WritePropertyGetter(cfg: Config, fn: string, property: string, fts: seq<string>): (r: Result<string, QueryError>)
    ensures property == "_id" ==> r == (if fn == "fl_value" then Success("key") else Failure(Invalid("can't use '_id' in this context")))
    ensures property == "_sequence" ==> r == (if fn == "fl_value" then Success("sequence") else Failure(Invalid("can't use '_sequence' in this context")))
    ensures property != "_id" && property != "_sequence" && fn == "rank" ==>
      (r.Success? <==> property in fts)
    ensures property != "_id" && property != "_sequence" && fn != "rank" ==>
      r.Success? && (exists lit :: r.value == fn + "(" + cfg.bodyColumn + ", " + lit + ")" &&
                                   ReadSQLString(lit) == Some(AppendPaths(cfg.propertyPath, property)))
  {
    if property == "_id" then
      if fn != "fl_value" then Failure(Invalid("can't use '_id' in this context")) else Success("key")
    else if property == "_sequence" then
      if fn != "fl_value" then Failure(Invalid("can't use '_sequence' in this context")) else Success("sequence")
    else if fn == "rank" then
      RankGetterAsWritten(cfg, property, fts)
    else
      var lit := SQLString(AppendPaths(cfg.propertyPath, property));
      Success(fn + "(" + cfg.bodyColumn + ", " + lit + ")")
  }

  /** The rank() branch as written: the FTS list is searched for the bare
      property, though `AddFTSPropertyIndex` stored the full path. */
  function RankGetterAsWritten(cfg: Config, property: string, fts: seq<string>): (r: Result<string, QueryError>)
    ensures r.Success? <==> property in fts
  {
    if FTSPropertyIndex(fts, property) == 0 then Failure(Invalid("rank() can only be used with FTS properties"))
    else Success("rank(matchinfo(\"" + cfg.tableName + "::" + property + "\"))")
  }

  /** The rank() branch as intended: the full path is looked up and names
      the FTS table. */
  function RankGetter(cfg: Config, property: string, fts: seq<string>): (r: Result<string, QueryError>)
    ensures r.Success? <==> AppendPaths(cfg.propertyPath, property) in fts
  {
    var path := AppendPaths(cfg.propertyPath, property);
    if FTSPropertyIndex(fts, path) == 0 then Failure(Invalid("rank() can only be used with FTS properties"))
    else Success("rank(matchinfo(\"" + cfg.tableName + "::" + path + "\"))")
  }

  /** With a property-path prefix, a property that was MATCHed is still
      refused by rank() as written. */
  lemma RankAsWrittenMissesMatchedProperty()
    ensures var cfg := Config("kv_default", "body", "doc");
      WritePropertyGetter(cfg, "rank", "text", AddFTSPropertyIndex(cfg, [], "text").0).Failure?
  {
    var cfg := Config("kv_default", "body", "doc");
    var fts := AddFTSPropertyIndex(cfg, [], "text").0;
    assert "text" !in fts by {
      PrefixedTextPath();
      assert fts == ["doc.text"];
      assert |"text"| != |fts[0]|;
    }
    RankAsWrittenRefusesUnlisted(cfg, "text", fts);
  }

  /** Even without a prefix, a property written with its "$." root is
      stored without it, so rank() as written refuses it too. */
  lemma RankAsWrittenMissesRootedProperty()
    ensures var cfg := Config("kv_default", "body", "");
      WritePropertyGetter(cfg, "rank", "$.text", AddFTSPropertyIndex(cfg, [], "$.text").0).Failure?
  {
    var cfg := Config("kv_default", "body", "");
    var fts := AddFTSPropertyIndex(cfg, [], "$.text").0;
    assert "$.text" !in fts by {
      RootedTextPath();
      assert fts == ["text"];
      assert |"$.text"| != |fts[0]|;
    }
    RankAsWrittenRefusesUnlisted(cfg, "$.text", fts);
  }

  lemma PrefixedTextPath()
    ensures AppendPaths("doc", "text") == "doc.text"
  {
    AppendPathsShape("doc", "text");
    assert StripRoot("text") == "text";
    assert Separator("doc", "text") == ".";
  }

  lemma RootedTextPath()
    ensures AppendPaths("", "$.text") == "text"
  {
    var rooted := "$.text";
    assert rooted[0] == '$' && rooted[1] == '.' && rooted[2..] == "text";
  }

  /** rank() as written refuses an ordinary property missing from the
      FTS list. */
  lemma RankAsWrittenRefusesUnlisted(cfg: Config, property: string, fts: seq<string>)
    requires property != "_id" && property != "_sequence" && property !in fts
    ensures WritePropertyGetter(cfg, "rank", property, fts).Failure?
  {
  }

  /** With the corrected lookup, once a property has been MATCHed, rank()
      on it succeeds, and the function named is the FTS table of its full
      path. */
  lemma RankFindsMatchedProperty(cfg: Config, fts: seq<string>, property: string)
    ensures var (fts', _) := AddFTSPropertyIndex(cfg, fts, property);
      RankGetter(cfg, property, fts') ==
        Success("rank(matchinfo(\"" + cfg.tableName + "::" + AppendPaths(cfg.propertyPath, property) + "\"))")
  {
  }

  /** `writeNestedPropertyOpIfAny`: when the first operand is a property
      node, its getter under `fn`; `None` otherwise. */
  function WriteNestedPropertyOpIfAny(cfg: Config, fn: string, operands: seq<Json>, fts: seq<string>): (r: Result<Option<string>, QueryError>)
    ensures |operands| == 0 ==> r == Success(None)
    ensures |operands| > 0 && PropertyFromNode(operands[0]) == Success("") ==> r == Success(None)
    ensures r.Success? && r.value.Some? ==>
      exists p :: PropertyFromNode(operands[0]) == Success(p) && p != "" &&
        WritePropertyGetter(cfg, fn, p, fts) == Success(r.value.value)
  {
    if |operands| == 0 then Success(None)
    else
      var property :- PropertyFromNode(operands[0]);
      if property == "" then Success(None)
      else
        var getter :- WritePropertyGetter(cfg, fn, property, fts);
        Success(Some(getter))
  }

  // ---------------------------------------------------------------------------
  // Leaf handlers
  // ---------------------------------------------------------------------------

  /** `propertyOp`: a document property read with fl_value. */
  function PropertyOp(cfg: Config, operands: seq<Json>, st: State): (r: Result<Out, QueryError>)
    ensures r.Success? ==> r.value.st == st
    ensures r.Success? <==> (PropertyFromOperands(operands).Success? &&
                             WritePropertyGetter(cfg, "fl_value", PropertyFromOperands(operands).value, st.fts).Success?)
  {
    var property :- PropertyFromOperands(operands);
    var getter :- WritePropertyGetter(cfg, "fl_value", property, st.fts);
    Success(Out(getter, st))
  }

  /** `parameterOp`: ["$", name] or ["$name"] becomes "$_name" and records
      the parameter; an operator "$name" takes no operands. */
  function ParameterOp(op: string, operands: seq<Json>, st: State): (r: Result<Out, QueryError>)
    requires |op| >= 1 && op[0] == '$'
    requires |op| == 1 ==> |operands| >= 1
    ensures var name := if |op| == 1 then ToText(operands[0]) else op[1..];
      r.Success? <==> (|op| == 1 || |operands| == 0) && IsAlphanumericOrUnderscore(name)
    ensures r.Success? ==> (exists name :: IsAlphanumericOrUnderscore(name) &&
                             r.value.sql == "$_" + name && r.value.st == st.(parameters := st.parameters + {name}))
    ensures |op| > 1 && |operands| > 0 ==> r == Failure(Invalid("extra operands to " + op[1..]))
  {
    var parameter := if |op| == 1 then ToText(operands[0]) else op[1..];
    if |op| != 1 && |operands| > 0 then Failure(Invalid("extra operands to " + parameter))
    else if !IsAlphanumericOrUnderscore(parameter) then Failure(Invalid("Invalid query parameter name"))
    else Success(Out("$_" + parameter, st.(parameters := st.parameters + {parameter})))
  }

  /** The name of an ANY/EVERY variable operand; a non-string reads as "". */
  function VariableName(item: Json): string {
    match AsString(item)
    case Some(s) => s
    case None => ""
  }

  /** `variableOp`: ["?", var] reads the current item of an enclosing
      ANY/EVERY, ["?", var, path...] a property inside it; the variable
      must be a valid identifier bound by an enclosing ANY/EVERY. */
  function VariableOp(operands: seq<Json>, st: State): (r: Result<Out, QueryError>)
    requires |operands| >= 1
    ensures r.Success? ==> (r.value.st == st && IsValidIdentifier(VariableName(operands[0])) &&
                            VariableName(operands[0]) in st.variables)
    ensures IsValidIdentifier(VariableName(operands[0])) && VariableName(operands[0]) !in st.variables ==>
      r == Failure(Invalid("No such variable '" + VariableName(operands[0]) + "'"))
    ensures |operands| == 1 && r.Success? ==> r.value.sql == "_" + VariableName(operands[0]) + ".value"
    ensures |operands| > 1 && r.Success? ==> exists lit ::
      r.value.sql == "fl_value(_" + VariableName(operands[0]) + ".pointer, " + lit + ")" &&
      PropertyFromOperands(operands[1..]).Success? &&
      Some(PropertyFromOperands(operands[1..]).value) == ReadSQLString(lit)
  {
    var name := VariableName(operands[0]);
    if !IsValidIdentifier(name) then Failure(Invalid("Invalid variable name"))
    else if name !in st.variables then Failure(Invalid("No such variable '" + name + "'"))
    else if |operands| == 1 then Success(Out("_" + name + ".value", st))
    else
      var property :- PropertyFromOperands(operands[1..]);
      Success(Out("fl_value(_" + name + ".pointer, " + SQLString(property) + ")", st))
  }

  /** `selectOp`: the operand must be a dictionary; writing the SELECT
      statement itself is not part of this model. */
  function SelectOp(operands: seq<Json>): (r: Result<Out, QueryError>)
    requires |operands| >= 1
    ensures r.Failure?
    ensures r.error == SelectNotModelled <==> operands[0].JDict?
  {
    if !operands[0].JDict? then Failure(Invalid("Argument to SELECT must be an object"))
    else Failure(SelectNotModelled)
  }

  // ---------------------------------------------------------------------------
  // The recursive translator
  // ---------------------------------------------------------------------------

  /** The fewest operands each handler reads. */
  function MinOperands(h: Handler): nat {
    match h
    case Infix => 0
    case Between => 3
    case AnyEvery => 3
    case In => 1
    case Match => 2
    case Fallback => 0
    case _ => 1
    // Infix operators loop over however many operands there are; IN reads
    // its first operand and lists the rest.
  }

  lemma TableRowsFit()
    ensures forall i :: 0 <= i < |OperationList| ==> RowFits(OperationList[i])
  {
  }

  /** What `parseOpNode` guarantees when it calls `handleOperation`: either
      the fallback row with any operands, or a table row under its own name
      with at least the operands its handler reads. */
  predicate Dispatchable(def: Operation, actual: string, operands: seq<Json>) {
    if def == FallbackOperation then !NameKnown(actual)
    else (def.name == actual && RowFits(def) && |operands| >= MinOperands(def.handler))
  }

  /** A table row names itself, has a handler of its own, promises that
      handler the operands it reads, and "$" is the only parameter row. */
  predicate RowFits(def: Operation) {
    |def.name| > 0 && def.handler != Fallback && def.minArgs >= MinOperands(def.handler) &&
    (def.handler == Parameter ==> def.name == "$")
  }

  /** "$" alone is a table operator, so the fallback never sees it. */
  lemma DollarKnown()
    ensures NameKnown("$")
  {
    assert OperationList[1].name == "$";
  }

  /** `parseNode`: literals are written directly, arrays are operations.
      A JSON null writes "null" and then also its number text, since the
      source's switch falls through from the null case. */
  function ParseNode(cfg: Config, node: Json, st: State): (r: Result<Out, QueryError>)
    requires Valid(st)
    ensures r.Success? ==> Keeps(st, r.value.st)
    ensures node.JData? ==> r == Failure(Invalid("Binary data not supported in query"))
    ensures node.JDict? ==> r == Failure(Invalid("Dictionaries not supported in query"))
    ensures !node.JArray? && r.Success? ==> r.value.st == st
    decreases Size(node), 0
  {
    match node
    case JNull => Success(Out("null" + ToText(node), st))
    case JInt(_) => Success(Out(ToText(node), st))
    case JReal(_) => Success(Out(ToText(node), st))
    case JBool(b) => Success(Out(if b then "1" else "0", st))
    case JString(s) => Success(Out(SQLString(s), st))
    case JData(_) => Failure(Invalid("Binary data not supported in query"))
    case JArray(items) => ParseOpNode(cfg, items, st)
    case JDict(_) => Failure(Invalid("Dictionaries not supported in query"))
  }

  /** `parseOpNode`: the first item names the operation, which is looked up
      by name and operand count and handed to `handleOperation`. */
  function ParseOpNode(cfg: Config, items: seq<Json>, st: State): (r: Result<Out, QueryError>)
    requires Valid(st)
    ensures r.Success? ==> Keeps(st, r.value.st)
    ensures |items| == 0 ==> r == Failure(Invalid("Empty JSON array"))
    ensures |items| > 0 && !items[0].JString? ==> r == Failure(Invalid("Operation must be a string"))
    ensures |items| > 0 && items[0].JString? && LookupOperation(items[0].s, |items| - 1).Failure? ==>
      r == Failure(Invalid("Wrong number of arguments to " + items[0].s))
    decreases SizeSeq(items), 7
  {
    if |items| == 0 then Failure(Invalid("Empty JSON array"))
    else
      match AsString(items[0])
      case None => Failure(Invalid("Operation must be a string"))
      case Some(op) =>
        match LookupOperation(op, |items| - 1)
        case Failure(msg) => Failure(Invalid(msg))
        case Success(def) =>
          var operands := items[1..];
          SizeSeqDrop(items, 1);
          assert Dispatchable(def, op, operands) by {
            TableRowsFit();
          }
          HandleOperation(cfg, def, op, operands, st)
  }

  /** Whether `handleOperation` parenthesises: the operation binds no
      tighter than the one it appears in. */
  predicate Parenthesize(def: Operation, st: State)
    requires Valid(st)
  {
    def.precedence <= Top(st).precedence
  }

  /** `handleOperation`: pushes the operation, writes "(" ... ")" around its
      handler's output iff it binds no tighter than the enclosing
      operation, and pops it again, leaving the context as it was. */
  function HandleOperation(cfg: Config, def: Operation, actual: string, operands: seq<Json>, st: State): (r: Result<Out, QueryError>)
    requires Valid(st) && Dispatchable(def, actual, operands)
    ensures r.Success? ==> Keeps(st, r.value.st)
    ensures var inner := RunHandler(cfg, def, actual, operands, Push(st, Frame(def.name, def.precedence)));
      r.Success? <==> inner.Success?
    ensures r.Success? ==>
      r.value.sql == Wrap(Parenthesize(def, st),
        RunHandler(cfg, def, actual, operands, Push(st, Frame(def.name, def.precedence))).value.sql)
    decreases SizeSeq(operands), 6
  {
    var paren := Parenthesize(def, st);
    var pushed := Push(st, Frame(def.name, def.precedence));
    var inner :- RunHandler(cfg, def, actual, operands, pushed);
    assert inner.st.context[..|pushed.context| - 1] == st.context;
    Success(Out(Wrap(paren, inner.sql), Pop(inner.st)))
  }

  /** Calls the handler of an operation with its frame on top of the stack. */
  function RunHandler(cfg: Config, def: Operation, actual: string, operands: seq<Json>, st: State): (r: Result<Out, QueryError>)
    requires Valid(st) && Dispatchable(def, actual, operands)
    ensures r.Success? ==> KeepsBelowTop(st, r.value.st)
    decreases SizeSeq(operands), 5
  {
    if def == FallbackOperation then FallbackOp(cfg, actual, operands, st)
    else
      match def.handler
      case Property => PropertyOp(cfg, operands, st)
      case Parameter => ParameterOp(actual, operands, st)
      case Variable => VariableOp(operands, st)
      case Infix => InfixOp(cfg, actual, operands, true, st)
      case Prefix => PrefixOp(cfg, actual, operands, st)
      case Postfix => PostfixOp(cfg, actual, operands, st)
      case In => InOp(cfg, actual, operands, st)
      case Match => MatchOp(cfg, operands, st)
      case Between => BetweenOp(cfg, actual, operands, st)
      case Exists => ExistsOp(cfg, actual, operands, st)
      case AnyEvery => AnyEveryOp(cfg, actual, operands, st)
      case Select => SelectOp(operands)
      case Fallback => assert false; Failure(Invalid("Unknown operator: " + actual))
  }

  /** `infixOp`: the operands separated by " op " (", " for an argument
      list); `first` is whether no operand has been written yet. */
  function InfixOp(cfg: Config, op: string, operands: seq<Json>, first: bool, st: State): (r: Result<Out, QueryError>)
    requires Valid(st)
    ensures r.Success? ==> Keeps(st, r.value.st)
    ensures |operands| == 0 ==> r == Success(Out("", st))
    decreases SizeSeq(operands), 1
  {
    if |operands| == 0 then Success(Out("", st))
    else
      var sep := if first then "" else (if op != "," then " " else "") + op + " ";
      var a :- ParseNode(cfg, operands[0], st);
      var rest :- InfixOp(cfg, op, operands[1..], false, a.st);
      Success(Out(sep + a.sql + rest.sql, rest.st))
  }

  /** `writeArgList`: the operands as a comma-separated list under
      `kArgListOperation`, parenthesised unless the enclosing operation
      binds looser still (as ORDER BY does). */
  function WriteArgList(cfg: Config, operands: seq<Json>, st: State): (r: Result<Out, QueryError>)
    requires Valid(st)
    ensures r.Success? ==> Keeps(st, r.value.st)
    ensures r.Success? ==> exists inner :: r.value.sql == Wrap(Parenthesize(ArgListOperation, st), inner)
    ensures var list := InfixOp(cfg, ArgListOperation.name, operands, true,
                                Push(st, Frame(ArgListOperation.name, ArgListOperation.precedence)));
      (r.Success? <==> list.Success?) &&
      (r.Success? ==> r.value.sql == Wrap(ArgListOperation.precedence <= Top(st).precedence, list.value.sql))
    decreases SizeSeq(operands), 2
  {
    var paren := Parenthesize(ArgListOperation, st);
    var pushed := Push(st, Frame(ArgListOperation.name, ArgListOperation.precedence));
    var inner :- InfixOp(cfg, ArgListOperation.name, operands, true, pushed);
    assert inner.st.context[..|pushed.context| - 1] == st.context;
    Success(Out(Wrap(paren, inner.sql), Pop(inner.st)))
  }

  /** `prefixOp`: the operator, a space if it ends in a letter, the operand. */
  function PrefixOp(cfg: Config, op: string, operands: seq<Json>, st: State): (r: Result<Out, QueryError>)
    requires Valid(st) && |op| > 0 && |operands| >= 1
    ensures r.Success? ==> Keeps(st, r.value.st)
    decreases SizeSeq(operands), 4
  {
    var a :- ParseNode(cfg, operands[0], st);
    Success(Out(op + (if IsAlpha(op[|op| - 1]) then " " else "") + a.sql, a.st))
  }

  /** `postfixOp`: the operand, a space, the operator. */
  function PostfixOp(cfg: Config, op: string, operands: seq<Json>, st: State): (r: Result<Out, QueryError>)
    requires Valid(st) && |operands| >= 1
    ensures r.Success? ==> Keeps(st, r.value.st)
    decreases SizeSeq(operands), 4
  {
    var a :- ParseNode(cfg, operands[0], st);
    Success(Out(a.sql + " " + op, a.st))
  }

  /** `existsOp`: EXISTS of a property becomes fl_exists(); otherwise it is
      written as a prefix operator. */
  function ExistsOp(cfg: Config, op: string, operands: seq<Json>, st: State): (r: Result<Out, QueryError>)
    requires Valid(st) && |op| > 0 && |operands| >= 1
    ensures r.Success? ==> Keeps(st, r.value.st)
    decreases SizeSeq(operands), 4
  {
    var nested :- WriteNestedPropertyOpIfAny(cfg, "fl_exists", operands, st.fts);
    if nested.Some? then Success(Out(nested.value, st))
    else
      var a :- ParseNode(cfg, operands[0], st);
      Success(Out(op + (if IsAlpha(op[|op| - 1]) then " " else "") + a.sql, a.st))
  }

  /** `betweenOp`: "x BETWEEN y AND z". */
  function BetweenOp(cfg: Config, op: string, operands: seq<Json>, st: State): (r: Result<Out, QueryError>)
    requires Valid(st) && |operands| >= 3
    ensures r.Success? ==> Keeps(st, r.value.st)
    decreases SizeSeq(operands), 4
  {
    SizeSeqElement(operands, 1);
    SizeSeqElement(operands, 2);
    var a :- ParseNode(cfg, operands[0], st);
    var b :- ParseNode(cfg, operands[1], a.st);
    var c :- ParseNode(cfg, operands[2], b.st);
    Success(Out(a.sql + " " + op + " " + b.sql + " AND " + c.sql, c.st))
  }

  /** `inOp`: "x IN (a, b, ...)". */
  function InOp(cfg: Config, op: string, operands: seq<Json>, st: State): (r: Result<Out, QueryError>)
    requires Valid(st) && |operands| >= 1
    ensures r.Success? ==> Keeps(st, r.value.st)
    decreases SizeSeq(operands), 4
  {
    SizeSeqDrop(operands, 1);
    var a :- ParseNode(cfg, operands[0], st);
    var list :- WriteArgList(cfg, operands[1..], a.st);
    Success(Out(a.sql + " " + op + " " + list.sql, list.st))
  }

  /** `matchOp`: "property MATCH pattern" registers the property's FTS table
      (an implicit join) and matches against its text column. */
  function MatchOp(cfg: Config, operands: seq<Json>, st: State): (r: Result<Out, QueryError>)
    requires Valid(st) && |operands| >= 2
    ensures r.Success? ==> Keeps(st, r.value.st)
    ensures r.Success? ==> (exists p :: PropertyFromNode(operands[0]) == Success(p) && p != "" &&
                                        AppendPaths(cfg.propertyPath, p) in r.value.st.fts)
    ensures PropertyFromNode(operands[0]) == Success("") ==> r == Failure(Invalid("Source of MATCH must be a property"))
    decreases SizeSeq(operands), 4
  {
    SizeSeqElement(operands, 1);
    var property :- PropertyFromNode(operands[0]);
    if property == "" then Failure(Invalid("Source of MATCH must be a property"))
    else
      var (fts, n) := AddFTSPropertyIndex(cfg, st.fts, property);
      var table := "FTS" + NatToString(n);
      var b :- ParseNode(cfg, operands[1], st.(fts := fts));
      assert AppendPaths(cfg.propertyPath, property) in fts;
      Success(Out("(" + table + ".text MATCH " + b.sql + " AND " + table + ".rowid = " + cfg.tableName + ".sequence)", b.st))
  }

  /** Dropping a variable the operation put in scope leaves the caller's
      state as `Keeps` requires. */
  lemma UnscopeKeeps(st: State, name: string, scoped: State, after: State)
    requires name !in st.variables && scoped == st.(variables := st.variables + {name})
    requires Keeps(scoped, after)
    ensures Keeps(st, after.(variables := after.variables - {name}))
  {
    assert after.variables - {name} == st.variables;
  }

  /** `anyEveryOp`: ANY / EVERY / ANY AND EVERY over the items of an array
      property. The variable must be a fresh identifier; it is in scope
      for the predicate only. */
  function AnyEveryOp(cfg: Config, op: string, operands: seq<Json>, st: State): (r: Result<Out, QueryError>)
    requires Valid(st) && |operands| >= 3
    ensures r.Success? ==> Keeps(st, r.value.st)
    ensures !IsValidIdentifier(VariableName(operands[0])) ==>
      r == Failure(Invalid("ANY/EVERY first parameter must be an identifier"))
    ensures IsValidIdentifier(VariableName(operands[0])) && VariableName(operands[0]) in st.variables ==>
      r == Failure(Invalid("Variable '" + VariableName(operands[0]) + "' is already in use"))
    ensures r.Success? ==> VariableName(operands[0]) !in st.variables
    decreases SizeSeq(operands), 4
  {
    SizeSeqElement(operands, 2);
    var name := VariableName(operands[0]);
    if !IsValidIdentifier(name) then Failure(Invalid("ANY/EVERY first parameter must be an identifier"))
    else if name in st.variables then Failure(Invalid("Variable '" + name + "' is already in use"))
    else
      var scoped := st.(variables := st.variables + {name});
      var property :- PropertyFromNode(operands[1]);
      if property == "" then Failure(Invalid("ANY/EVERY only supports a property as its source"))
      else
        var every := op != "ANY";
        var anyAndEvery := op == "ANY AND EVERY";
        var count :- if anyAndEvery then WritePropertyGetter(cfg, "fl_count", property, st.fts) else Success("");
        var each :- WritePropertyGetter(cfg, "fl_each", property, st.fts);
        var body :- ParseNode(cfg, operands[2], scoped);
        UnscopeKeeps(st, name, scoped, body.st);
        Success(Out(AnyEverySql(every, anyAndEvery, count, each, name, body.sql),
                    body.st.(variables := body.st.variables - {name})))
  }

  /** The SQL `anyEveryOp` writes around the predicate's SQL. */
  function AnyEverySql(every: bool, anyAndEvery: bool, count: string, each: string, name: string, body: string): string {
    (if anyAndEvery then "(" + count + " > 0 AND " else "") +
    (if every then "NOT " else "") + "EXISTS (SELECT 1 FROM " + each + " AS _" + name + " WHERE " +
    (if every then "NOT (" else "") + body + (if every then ")" else "") + ")" +
    (if anyAndEvery then ")" else "")
  }

  /** `fallbackOp`: an operator not in the table. ".name" is a property,
      "$name" a parameter, "name()" a function call; anything else is an
      error. The top frame takes the actual operator's name. */
  function FallbackOp(cfg: Config, op: string, operands: seq<Json>, st: State): (r: Result<Out, QueryError>)
    requires Valid(st) && !NameKnown(op)
    ensures r.Success? ==> KeepsBelowTop(st, r.value.st)
    ensures !(|op| > 0 && (op[0] == '.' || op[0] == '$')) && !(|op| > 2 && op[|op| - 2] == '(' && op[|op| - 1] == ')') ==>
      r == Failure(Invalid("Unknown operator: " + op))
    decreases SizeSeq(operands), 4
  {
    var renamed := st.(context := st.context[..|st.context| - 1] + [Frame(op, Top(st).precedence)]);
    if |op| > 0 && op[0] == '.' then
      var getter :- WritePropertyGetter(cfg, "fl_value", op[1..], st.fts);
      Success(Out(getter, renamed))
    else if |op| > 0 && op[0] == '$' then
      DollarKnown();
      ParameterOp(op, operands, renamed)
    else if |op| > 2 && op[|op| - 2] == '(' && op[|op| - 1] == ')' then
      FunctionOp(cfg, op[..|op| - 2], operands, renamed)
    else
      Failure(Invalid("Unknown operator: " + op))
  }

  /** `functionOp`: count(property) and rank(property) become Fleece / FTS
      calls; any other function is written with its argument list. */
  function FunctionOp(cfg: Config, name: string, operands: seq<Json>, st: State): (r: Result<Out, QueryError>)
    requires Valid(st)
    ensures r.Success? ==> Keeps(st, r.value.st)
    decreases SizeSeq(operands), 3
  {
    var nested :- if name == "count" then WriteNestedPropertyOpIfAny(cfg, "fl_count", operands, st.fts)
                  else if name == "rank" then WriteNestedPropertyOpIfAny(cfg, "rank", operands, st.fts)
                  else Success(None);
    if nested.Some? then Success(Out(nested.value, st))
    else
      var list :- WriteArgList(cfg, operands, st);
      Success(Out(name + list.sql, list.st))
  }

  /** `reset` followed by `parseNode`: the context is reset to the outer
      frame; the rest of the parser state carries over. */
  function ParseJustExpression(cfg: Config, node: Json, st: State): (r: Result<Out, QueryError>)
    ensures r.Success? ==> r.value.st.context == [OuterFrame] && Evolves(st, r.value.st)
  {
    ParseNode(cfg, node, st.(context := [OuterFrame]))
  }

  // ---------------------------------------------------------------------------
  // Properties of the translator
  // ---------------------------------------------------------------------------

  /** The separator `infixOp` writes before an operand. */
  function InfixSeparator(op: string, first: bool): string {
    if first then "" else (if op != "," then " " else "") + op + " "
  }

  /** One step of `infixOp`: the separator, the first operand, the rest. */
  lemma InfixStep(cfg: Config, op: string, operands: seq<Json>, first: bool, st: State, a: Out, rest: Out)
    requires Valid(st) && |operands| > 0
    requires ParseNode(cfg, operands[0], st) == Success(a)
    requires Valid(a.st) && InfixOp(cfg, op, operands[1..], false, a.st) == Success(rest)
    ensures InfixOp(cfg, op, operands, first, st) == Success(Out(InfixSeparator(op, first) + a.sql + rest.sql, rest.st))
  {
  }

  lemma ParseInteger(cfg: Config, x: int, st: State)
    requires Valid(st)
    ensures ParseNode(cfg, JInt(x), st) == Success(Out(IntToString(x), st))
  {
  }

  /** `infixOp` over two operands that leave the state alone. */
  lemma InfixOfTwo(cfg: Config, op: string, a: Json, b: Json, sa: string, sb: string, st: State)
    requires Valid(st) && op != ","
    requires ParseNode(cfg, a, st) == Success(Out(sa, st))
    requires ParseNode(cfg, b, st) == Success(Out(sb, st))
    ensures InfixOp(cfg, op, [a, b], true, st) == Success(Out(sa + " " + op + " " + sb, st))
  {
    InfixOfOne(cfg, op, b, sb, st);
    PairParts(a, b);
    InfixStep(cfg, op, [a, b], true, st, Out(sa, st), Out(" " + op + " " + sb, st));
    SeparatedParts(sa, op, sb);
  }

  /** The last operand of `infixOp` gets a separator and nothing after it. */
  lemma InfixOfOne(cfg: Config, op: string, b: Json, sb: string, st: State)
    requires Valid(st) && op != ","
    requires ParseNode(cfg, b, st) == Success(Out(sb, st))
    ensures InfixOp(cfg, op, [b], false, st) == Success(Out(" " + op + " " + sb, st))
  {
    PairParts(b, b);
    InfixStep(cfg, op, [b], false, st, Out(sb, st), Out("", st));
    SeparatedParts("", op, sb);
  }

  /** The head and tail of one- and two-element operand lists. */
  lemma PairParts(a: Json, b: Json)
    ensures [a, b][0] == a && [a, b][1..] == [b]
    ensures [b][0] == b && [b][1..] == []
  {
  }

  /** The two ways `infixOp`'s pieces associate give the same text. */
  lemma SeparatedParts(sa: string, op: string, sb: string)
    ensures "" + sa + (" " + op + " " + sb) == sa + " " + op + " " + sb
    ensures " " + op + " " + sb + "" == " " + op + " " + sb
  {
  }

  /** An array node whose operator names a table row reaches
      `handleOperation` with that row. */
  lemma ArrayNodeDispatch(cfg: Config, op: string, def: Operation, operands: seq<Json>, st: State)
    requires Valid(st) && LookupOperation(op, |operands|) == Success(def) && def.handler != Fallback
    ensures Dispatchable(def, op, operands)
    ensures ParseNode(cfg, JArray([JString(op)] + operands), st) == HandleOperation(cfg, def, op, operands, st)
  {
    var items := [JString(op)] + operands;
    assert items[1..] == operands;
    assert ParseNode(cfg, JArray(items), st) == ParseOpNode(cfg, items, st);
    TableRowsFit();
  }

  /** `handleOperation` of an infix table row on two operands that leave
      the state alone: parentheses exactly when the row binds no tighter
      than the enclosing operation. */
  lemma BinaryInfix(cfg: Config, op: string, def: Operation, a: Json, b: Json, sa: string, sb: string, st: State)
    requires Valid(st) && op != ","
    requires LookupOperation(op, 2) == Success(def) && def.handler == Infix
    requires var inside := Push(st, Frame(op, def.precedence));
      ParseNode(cfg, a, inside) == Success(Out(sa, inside)) && ParseNode(cfg, b, inside) == Success(Out(sb, inside))
    ensures ParseNode(cfg, JArray([JString(op), a, b]), st) ==
      Success(Out(Wrap(def.precedence <= Top(st).precedence, sa + " " + op + " " + sb), st))
  {
    ArrayNodeDispatch(cfg, op, def, [a, b], st);
    assert [JString(op)] + [a, b] == [JString(op), a, b];
    var pushed := Push(st, Frame(def.name, def.precedence));
    var out := Out(sa + " " + op + " " + sb, pushed);
    assert RunHandler(cfg, def, op, [a, b], pushed) == Success(out) by {
      assert def.name == op;
      InfixOfTwo(cfg, op, a, b, sa, sb, pushed);
    }
    HandleOperationOf(cfg, def, op, [a, b], st, out);
    assert Pop(pushed) == st by {
      assert pushed.context[..|pushed.context| - 1] == st.context;
    }
  }

  /** `handleOperation` in terms of its handler's result. */
  lemma HandleOperationOf(cfg: Config, def: Operation, actual: string, operands: seq<Json>, st: State, out: Out)
    requires Valid(st) && Dispatchable(def, actual, operands)
    requires RunHandler(cfg, def, actual, operands, Push(st, Frame(def.name, def.precedence))) == Success(out)
    ensures Valid(out.st)
    ensures HandleOperation(cfg, def, actual, operands, st) == Success(Out(Wrap(Parenthesize(def, st), out.sql), Pop(out.st)))
  {
  }

  /** An infix operation nested as the left operand of itself is
      parenthesised, since equal precedence is enough to parenthesise; at
      a level that binds looser the outer operation is bare:
      "(x op y) op z". */
  lemma NestedSameInfix(cfg: Config, op: string, def: Operation, x: int, y: int, z: int, st: State)
    requires Valid(st) && op != "," && Top(st).precedence < def.precedence
    requires LookupOperation(op, 2) == Success(def) && def.handler == Infix
    ensures ParseNode(cfg, JArray([JString(op), JArray([JString(op), JInt(x), JInt(y)]), JInt(z)]), st) ==
      Success(Out(Wrap(true, IntToString(x) + " " + op + " " + IntToString(y)) + " " + op + " " + IntToString(z), st))
  {
    var outer := Push(st, Frame(op, def.precedence));
    var inner := Push(outer, Frame(op, def.precedence));
    ParseInteger(cfg, x, inner);
    ParseInteger(cfg, y, inner);
    ParseInteger(cfg, z, outer);
    var node := JArray([JString(op), JInt(x), JInt(y)]);
    BinaryInfix(cfg, op, def, JInt(x), JInt(y), IntToString(x), IntToString(y), outer);
    var paren := Wrap(true, IntToString(x) + " " + op + " " + IntToString(y));
    BinaryInfix(cfg, op, def, node, JInt(z), paren, IntToString(z), st);
  }

  /** "-" under the outer frame: ["-", ["-", 1, 2], 3] is "(1 - 2) - 3". */
  lemma NestedSubtraction(cfg: Config, st: State)
    requires st.context == [OuterFrame]
    ensures ParseNode(cfg, JArray([JString("-"), JArray([JString("-"), JInt(1), JInt(2)]), JInt(3)]), st) ==
      Success(Out("(1 - 2) - 3", st))
  {
    MinusDispatch();
    NestedSameInfix(cfg, "-", Operation("-", 2, 2, 6, Infix), 1, 2, 3, st);
    SubtractionText();
  }

  lemma SubtractionText()
    ensures Wrap(true, IntToString(1) + " " + "-" + " " + IntToString(2)) + " " + "-" + " " + IntToString(3) == "(1 - 2) - 3"
  {
    assert IntToString(1) == "1" && IntToString(2) == "2" && IntToString(3) == "3";
  }

  /** ANY / EVERY scoping: the variable was not already bound, the
      predicate is translated with it bound, and afterwards it is unbound
      again. */
  lemma AnyEveryScopesVariable(cfg: Config, op: string, operands: seq<Json>, st: State)
    requires Valid(st) && |operands| >= 3
    requires AnyEveryOp(cfg, op, operands, st).Success?
    ensures var name := VariableName(operands[0]);
      IsValidIdentifier(name) && name !in st.variables &&
      ParseNode(cfg, operands[2], st.(variables := st.variables + {name})).Success? &&
      AnyEveryOp(cfg, op, operands, st).value.st.variables == st.variables
  {
  }

  /** A variable is unknown outside the ANY / EVERY that binds it: at the
      outer level (no variables bound) ["?", name] is always an error. */
  lemma VariableOutsideScope(operands: seq<Json>, st: State)
    requires |operands| >= 1 && st.variables == {}
    ensures VariableOp(operands, st).Failure?
  {
  }
}

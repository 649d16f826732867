/** The operator table of the JSON-query translator and the lookup that picks
    an entry by name and argument count (LiteCore/Query/QueryParser.cc,
    lines 222-331). */
module QueryOps {
  import opened Wrappers

  /** The member function the source calls for an operator. */
  datatype Handler =
    | Property | Parameter | Variable | Infix | Prefix | Postfix
    | In | Match | Between | Exists | AnyEvery | Select | Fallback

  /** One row of `kOperationList`. */
  datatype Operation = Operation(name: string, minArgs: int, maxArgs: int, precedence: int, handler: Handler)

  /** The source caps the argument count it compares against the table at 9. */
  const MaxCountedArgs := 9

  const OperationList: seq<Operation> := [
    Operation(".", 1, 9, 9, Property),
    Operation("$", 1, 1, 9, Parameter),
    Operation("?", 1, 9, 9, Variable),
    Operation("||", 2, 9, 8, Infix),
    Operation("*", 2, 9, 7, Infix),
    Operation("/", 2, 2, 7, Infix),
    Operation("%", 2, 2, 7, Infix),
    Operation("+", 2, 9, 6, Infix),
    Operation("-", 2, 2, 6, Infix),
    Operation("-", 1, 1, 9, Prefix),
    Operation("<", 2, 2, 4, Infix),
    Operation("<=", 2, 2, 4, Infix),
    Operation(">", 2, 2, 4, Infix),
    Operation(">=", 2, 2, 4, Infix),
    Operation("=", 2, 2, 3, Infix),
    Operation("!=", 2, 2, 3, Infix),
    Operation("IS", 2, 2, 3, Infix),
    Operation("IS NOT", 2, 2, 3, Infix),
    Operation("IN", 2, 9, 3, In),
    Operation("NOT IN", 2, 9, 3, In),
    Operation("LIKE", 2, 2, 3, Infix),
    Operation("MATCH", 2, 2, 3, Match),
    Operation("BETWEEN", 3, 3, 3, Between),
    Operation("EXISTS", 1, 1, 8, Exists),
    Operation("NOT", 1, 1, 9, Prefix),
    Operation("AND", 2, 9, 2, Infix),
    Operation("OR", 2, 9, 2, Infix),
    Operation("ANY", 3, 3, 1, AnyEvery),
    Operation("EVERY", 3, 3, 1, AnyEvery),
    Operation("ANY AND EVERY", 3, 3, 1, AnyEvery),
    Operation("SELECT", 1, 1, 1, Select),
    Operation("DESC", 1, 1, 2, Postfix)
  ]

  /** The table's terminating row; its name is a null slice in the source. */
  const FallbackOperation := Operation("", 0, 0, 10, Fallback)

  /** `kArgListOperation`, used to write comma-separated argument lists. */
  const ArgListOperation := Operation(",", 0, 9, -2, Infix)

  predicate ArityFits(op: Operation, nargs: int) {
    op.minArgs <= nargs <= op.maxArgs
  }

  /** Whether some table row carries this operator name. */
  predicate NameKnown(name: string) {
    exists i :: 0 <= i < |OperationList| && OperationList[i].name == name
  }

  /** The index of the first row of `table` at or after `from` whose name
      matches and whose argument range contains `nargs`, or |table| if none. */
  function FirstFit(table: seq<Operation>, name: string, nargs: int, from: nat): (k: nat)
    requires from <= |table|
    ensures from <= k <= |table|
    ensures k < |table| ==> table[k].name == name && ArityFits(table[k], nargs)
    ensures forall j :: from <= j < k ==> !(table[j].name == name && ArityFits(table[j], nargs))
    decreases |table| - from
  {
    if from == |table| then from
    else if table[from].name == name && ArityFits(table[from], nargs) then from
    else FirstFit(table, name, nargs, from + 1)
  }

  /** The first row of the operator table at or after `from` that fits
      `name` and `nargs`, or |OperationList| if none. */
  function FindRow(name: string, nargs: int, from: nat): (k: nat)
    requires from <= |OperationList|
    ensures from <= k <= |OperationList|
    ensures k < |OperationList| ==> OperationList[k].name == name && ArityFits(OperationList[k], nargs)
    ensures forall j :: from <= j < k ==> !(OperationList[j].name == name && ArityFits(OperationList[j], nargs))
  {
    FirstFit(OperationList, name, nargs, from)
  }

  /** Whether the operator name occurs in the table at or after `from`;
      the source's loop records this in `nameMatched`. */
  function NameMatched(name: string, from: nat): (r: bool)
    requires from <= |OperationList|
    ensures r <==> exists i :: from <= i < |OperationList| && OperationList[i].name == name
    decreases |OperationList| - from
  {
    if from == |OperationList| then false
    else OperationList[from].name == name || NameMatched(name, from + 1)
  }

  /** `parseOpNode`'s table lookup: the first row whose name matches and
      whose arity fits min(count, 9); an error if the name occurs but no
      arity fits; the fallback row if the name is not in the table. */
  function LookupOperation(name: string, count: nat): (r: Result<Operation, string>)
    ensures r.Failure? <==>
      NameKnown(name) &&
      forall i :: 0 <= i < |OperationList| && OperationList[i].name == name ==>
        !ArityFits(OperationList[i], Min(count, MaxCountedArgs))
    ensures r.Failure? ==> r.error == "Wrong number of arguments to " + name
    ensures r == Success(FallbackOperation) <==> !NameKnown(name)
    ensures r.Success? && r.value != FallbackOperation ==>
      exists k :: 0 <= k < |OperationList| && r.value == OperationList[k] &&
        r.value.name == name && ArityFits(r.value, Min(count, MaxCountedArgs)) &&
        forall j :: 0 <= j < k ==> !(OperationList[j].name == name && ArityFits(OperationList[j], Min(count, MaxCountedArgs)))
  {
    var nargs := Min(count, MaxCountedArgs);
    var k := FindRow(name, nargs, 0);
    if k < |OperationList| then
      assert OperationList[k] != FallbackOperation by {
        TableHasNoFallback(k);
      }
      Success(OperationList[k])
    else if NameMatched(name, 0) then Failure("Wrong number of arguments to " + name)
    else Success(FallbackOperation)
  }

  lemma TableHasNoFallback(k: nat)
    requires k < |OperationList|
    ensures OperationList[k].handler != Fallback
  {
  }

  /** Every table row has a non-empty name and a handler of its own. */
  lemma TableRowsWellFormed()
    ensures forall i :: 0 <= i < |OperationList| ==>
      |OperationList[i].name| > 0 && OperationList[i].handler != Fallback &&
      0 <= OperationList[i].minArgs <= OperationList[i].maxArgs <= MaxCountedArgs
  {
  }

  /** "-" with one operand is negation, with two it is subtraction: the
      first row whose arity fits wins. */
  lemma MinusDispatch()
    ensures LookupOperation("-", 1) == Success(Operation("-", 1, 1, 9, Prefix))
    ensures LookupOperation("-", 2) == Success(Operation("-", 2, 2, 6, Infix))
  {
    FirstMinusRows();
    MinusRows();
    LookupFindsRow("-", 1, 9);
    LookupFindsRow("-", 2, 8);
  }

  /** When a row fits, the lookup returns it. */
  lemma LookupFindsRow(name: string, count: nat, k: nat)
    requires k == FindRow(name, Min(count, MaxCountedArgs), 0) && k < |OperationList|
    ensures LookupOperation(name, count) == Success(OperationList[k])
  {
  }

  lemma FirstMinusRows()
    ensures FindRow("-", 1, 0) == 9
    ensures FindRow("-", 2, 0) == 8
  {
    SkipRows("-", 1, 0, 8);
    SkipRows("-", 2, 0, 8);
    MinusRows();
  }

  lemma MinusRows()
    ensures OperationList[8] == Operation("-", 2, 2, 6, Infix)
    ensures OperationList[9] == Operation("-", 1, 1, 9, Prefix)
  {
  }

  /** Rows whose names differ from `name` are passed over. */
  lemma SkipRows(name: string, nargs: int, from: nat, to: nat)
    requires from <= to <= |OperationList|
    requires forall j :: from <= j < to ==> OperationList[j].name != name
    ensures FindRow(name, nargs, from) == FindRow(name, nargs, to)
  {
    SkipFits(OperationList, name, nargs, from, to);
  }

  lemma {:induction false} SkipFits(table: seq<Operation>, name: string, nargs: int, from: nat, to: nat)
    requires from <= to <= |table|
    requires forall j :: from <= j < to ==> table[j].name != name
    ensures FirstFit(table, name, nargs, from) == FirstFit(table, name, nargs, to)
    decreases |table| - from
  {
    if from < to {
      SkipFits(table, name, nargs, from + 1, to);
    }
  }

}

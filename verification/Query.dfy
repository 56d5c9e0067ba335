/** A predicate map, validated once and lowered twice: to the expression tree of the logical
    plan and to the `$`-operator mapping that is executed. */
module Query {
  import opened Decimals
  import opened Sorting
  import opened RateCards
  import Rows

  datatype Value = Null | Bool(flag: bool) | Int(number: int) | Text(text: Name)

  datatype Operator = Eq | Ne | Lt | Lte | Gt | Gte | In | NotIn | IsNull

  datatype Operand = One(value: Value) | Many(values: seq<Value>)

  /** A mapping is the list of its items; `Unknown` is an operator that is not supported. */
  datatype RawOperator = Known(operator: Operator) | Unknown

  datatype RawPredicate = RawPlain(value: Value) | RawTable(items: seq<(RawOperator, Operand)>)

  datatype Predicate = Plain(value: Value) | Table(items: seq<(Operator, Operand)>)

  datatype Entry = Entry(name: Name, test: Predicate)

  /** The place of an operator in the order of the operators' names. */
  function Rank(o: Operator): nat {
    match o
    case Eq => 0 case Gt => 1 case Gte => 2 case In => 3 case IsNull => 4
    case Lt => 5 case Lte => 6 case Ne => 7 case NotIn => 8
  }

  predicate ByOperator(a: (Operator, Operand), b: (Operator, Operand)) { Rank(a.0) <= Rank(b.0) }

  predicate ByName(a: Entry, b: Entry) { a.name <= b.name }

  // ---- _where ----

  /** What an operator accepts as its operand. */
  function CheckOperand(o: Operator, x: Operand): Option<Error> {
    match o
    case In => if x.Many? && 1 <= |x.values| <= 100 then None else Some(InvalidCost)
    case NotIn => if x.Many? && 1 <= |x.values| <= 100 then None else Some(InvalidCost)
    case IsNull => if x.One? && x.value.Bool? then None else Some(InvalidCost)
    case _ => if x.One? then None else Some(InvalidCost)
  }

  predicate ValidItems(items: seq<(Operator, Operand)>) {
    items != [] && forall item <- items :: CheckOperand(item.0, item.1) == None
  }

  predicate ValidPredicate(p: Predicate) { p.Table? ==> ValidItems(p.items) }

  /** A validated predicate map. */
  predicate ValidWhere(where: seq<Entry>) {
    && (forall e <- where :: ValidPredicate(e.test))
    && (forall i, j :: 0 <= i < j < |where| ==> where[i].name < where[j].name)
  }

  function CheckItems(items: seq<(RawOperator, Operand)>): Result<seq<(Operator, Operand)>> {
    if items == [] then Ok([])
    else if items[0].0.Unknown? || CheckOperand(items[0].0.operator, items[0].1).Some? then Err(InvalidCost)
    else
      var rest :- CheckItems(items[1..]);
      Ok([(items[0].0.operator, items[0].1)] + rest)
  }

  function CheckPredicate(p: RawPredicate): Result<Predicate> {
    match p
    case RawPlain(v) => Ok(Plain(v))
    case RawTable(items) =>
      if items == [] then Err(InvalidCost) else
      var checked :- CheckItems(items);
      Ok(Table(Sort(ByOperator, checked)))
  }

  /** Assigning a name in the output dictionary: one that occurs again is overwritten in place. */
  function Put(output: seq<Entry>, e: Entry): (r: seq<Entry>) {
    if output == [] then [e]
    else if output[0].name == e.name then [e] + output[1..]
    else [output[0]] + Put(output[1..], e)
  }

  function Output(raw: seq<(Name, RawPredicate)>): Result<seq<Entry>> {
    if raw == [] then Ok([]) else
    var before :- Output(raw[..|raw| - 1]);
    var p :- CheckPredicate(raw[|raw| - 1].1);
    Ok(Put(before, Entry(raw[|raw| - 1].0, p)))
  }

  function WhereOf(raw: seq<(Name, RawPredicate)>): Result<seq<Entry>> {
    if |raw| > 32 then Err(InvalidCost) else
    var output :- Output(raw);
    Ok(Sort(ByName, output))
  }

  /** The loop of _where; `raw` lists the items with their names normalised. */
  method Where(raw: seq<(Name, RawPredicate)>) returns (r: Result<seq<Entry>>)
    ensures r == WhereOf(raw)
    ensures r.Ok? ==> ValidWhere(r.value)
  {
    if |raw| > 32 { return Err(InvalidCost); }
    var output: seq<Entry> := [];
    for i := 0 to |raw|
      invariant Output(raw[..i]) == Ok(output)
    {
      assert raw[..i + 1][..i] == raw[..i];
      var p := CheckPredicate(raw[i].1);
      if p.Err? {
        OutputFails(raw, i + 1);
        return Err(p.error);
      }
      output := Put(output, Entry(raw[i].0, p.value));
    }
    assert raw[..|raw|] == raw;
    OutputIsValid(raw);
    WhereIsValid(output);
    return Ok(Sort(ByName, output));
  }

  lemma {:induction false} OutputFails(raw: seq<(Name, RawPredicate)>, i: nat)
    requires i <= |raw| && Output(raw[..i]).Err?
    ensures Output(raw) == Output(raw[..i])
    decreases |raw|
  {
    if i < |raw| {
      assert raw[..|raw| - 1][..i] == raw[..i];
      OutputFails(raw[..|raw| - 1], i);
    } else {
      assert raw[..i] == raw;
    }
  }

  lemma {:induction false} CheckedItems(items: seq<(RawOperator, Operand)>)
    requires CheckItems(items).Ok?
    ensures |CheckItems(items).value| == |items|
    ensures forall item <- CheckItems(items).value :: CheckOperand(item.0, item.1) == None
  {
    if items != [] { CheckedItems(items[1..]); }
  }

  lemma CheckedPredicate(p: RawPredicate)
    requires CheckPredicate(p).Ok?
    ensures ValidPredicate(CheckPredicate(p).value)
  {
    if p.RawTable? {
      var checked := CheckItems(p.items).value;
      CheckedItems(p.items);
      SortIsSorted(ByOperator, checked);
      var sorted := Sort(ByOperator, checked);
      forall item | item in sorted ensures item in checked { assert item in multiset(sorted); }
    }
  }

  ghost predicate DistinctNames(output: seq<Entry>) {
    forall i, j :: 0 <= i < j < |output| ==> output[i].name != output[j].name
  }

  lemma {:induction false} PutKeepsNames(output: seq<Entry>, e: Entry)
    requires DistinctNames(output)
    ensures DistinctNames(Put(output, e)) && e in Put(output, e)
    ensures forall x :: x in Put(output, e) <==> x == e || (x in output && x.name != e.name)
  {
    if output != [] && output[0].name != e.name {
      PutKeepsNames(output[1..], e);
      var r := Put(output[1..], e);
      forall j | 0 <= j < |r| ensures r[j].name != output[0].name {
        assert r[j] in r;
        if r[j] != e { assert r[j] in output[1..]; }
      }
    }
  }

  lemma {:induction false} OutputIsValid(raw: seq<(Name, RawPredicate)>)
    requires Output(raw).Ok?
    ensures DistinctNames(Output(raw).value)
    ensures forall e <- Output(raw).value :: ValidPredicate(e.test)
  {
    if raw != [] {
      var before := raw[..|raw| - 1];
      OutputIsValid(before);
      CheckedPredicate(raw[|raw| - 1].1);
      PutKeepsNames(Output(before).value, Entry(raw[|raw| - 1].0, CheckPredicate(raw[|raw| - 1].1).value));
    }
  }

  lemma WhereIsValid(output: seq<Entry>)
    requires DistinctNames(output) && forall e <- output :: ValidPredicate(e.test)
    ensures ValidWhere(Sort(ByName, output))
    ensures multiset(Sort(ByName, output)) == multiset(output)
  {
    var sorted := Sort(ByName, output);
    SortIsSorted(ByName, output);
    forall e | e in sorted ensures e in output { assert e in multiset(sorted); }
    forall i, j | 0 <= i < j < |sorted| ensures sorted[i].name < sorted[j].name {
      assert ByName(sorted[i], sorted[j]);
      NamesStayDistinct(output, sorted, i, j);
    }
  }

  lemma NamesStayDistinct(s: seq<Entry>, t: seq<Entry>, i: nat, j: nat)
    requires DistinctNames(s) && multiset(s) == multiset(t) && i < j < |t|
    ensures t[i].name != t[j].name
  {
    Rows.PermutedDistinct((e: Entry) => e.name, s, t);
  }

  /** `e` comes from the last item with its name. */
  ghost predicate LastItem(raw: seq<(Name, RawPredicate)>, e: Entry) {
    exists i :: 0 <= i < |raw| && raw[i].0 == e.name && CheckPredicate(raw[i].1) == Ok(e.test)
      && forall j :: i < j < |raw| ==> raw[j].0 != e.name
  }

  lemma LastItemStep(raw: seq<(Name, RawPredicate)>, e: Entry)
    requires raw != [] && CheckPredicate(raw[|raw| - 1].1).Ok?
    ensures var last := raw[|raw| - 1];
      LastItem(raw, e) <==>
        e == Entry(last.0, CheckPredicate(last.1).value) || (LastItem(raw[..|raw| - 1], e) && e.name != last.0)
  {
    var n, before := |raw| - 1, raw[..|raw| - 1];
    if LastItem(before, e) && e.name != raw[n].0 {
      var i :| 0 <= i < n && before[i].0 == e.name && CheckPredicate(before[i].1) == Ok(e.test)
        && forall j :: i < j < n ==> before[j].0 != e.name;
      assert raw[i].0 == e.name && forall j :: i < j < |raw| ==> raw[j].0 != e.name;
    }
    if LastItem(raw, e) {
      var i :| 0 <= i < |raw| && raw[i].0 == e.name && CheckPredicate(raw[i].1) == Ok(e.test)
        && forall j :: i < j < |raw| ==> raw[j].0 != e.name;
      if i < n { assert before[i].0 == e.name && forall j :: i < j < n ==> before[j].0 != e.name; }
    }
    if e == Entry(raw[n].0, CheckPredicate(raw[n].1).value) { assert raw[n].0 == e.name; }
  }

  lemma {:induction false} OutputAccepted(raw: seq<(Name, RawPredicate)>)
    ensures Output(raw).Ok? <==> forall i :: 0 <= i < |raw| ==> CheckPredicate(raw[i].1).Ok?
  {
    if raw != [] {
      var before := raw[..|raw| - 1];
      OutputAccepted(before);
      assert forall i :: 0 <= i < |before| ==> before[i] == raw[i];
    }
  }

  lemma {:induction false} OutputHolds(raw: seq<(Name, RawPredicate)>)
    requires Output(raw).Ok?
    ensures forall e :: e in Output(raw).value <==> LastItem(raw, e)
  {
    if raw != [] {
      var before := raw[..|raw| - 1];
      OutputHolds(before);
      OutputIsValid(before);
      var last := Entry(raw[|raw| - 1].0, CheckPredicate(raw[|raw| - 1].1).value);
      PutKeepsNames(Output(before).value, last);
      forall e ensures e in Put(Output(before).value, last) <==> LastItem(raw, e) {
        LastItemStep(raw, e);
      }
    }
  }

  /** A predicate map is accepted exactly when it is small enough and each predicate is well
      formed; of several items for one name, after normalisation, the last one counts. */
  lemma WhereExactly(raw: seq<(Name, RawPredicate)>)
    ensures WhereOf(raw).Ok? <==> |raw| <= 32 && forall i :: 0 <= i < |raw| ==> CheckPredicate(raw[i].1).Ok?
    ensures WhereOf(raw).Ok? ==> forall e :: e in WhereOf(raw).value <==> LastItem(raw, e)
  {
    OutputAccepted(raw);
    if WhereOf(raw).Ok? {
      OutputHolds(raw);
      var output := Output(raw).value;
      OutputIsValid(raw);
      WhereIsValid(output);
      forall e ensures e in Sort(ByName, output) <==> e in output {
        assert e in Sort(ByName, output) <==> e in multiset(Sort(ByName, output));
      }
    }
  }

  // ---- the two lowerings ----

  datatype Expr =
    | Compare(field: Name, operator: Operator, value: Value)
    | Member(field: Name, values: seq<Value>, negated: bool)
    | NullTest(field: Name, expected: bool)
    | And(parts: seq<Expr>)

  function ExprFor(name: Name, o: Operator, x: Operand): Expr
    requires CheckOperand(o, x) == None
  {
    match o
    case In => Member(name, x.values, false)
    case NotIn => Member(name, x.values, true)
    case IsNull => NullTest(name, x.value.flag)
    case _ => Compare(name, o, x.value)
  }

  function Parts(name: Name, p: Predicate): seq<Expr>
    requires ValidPredicate(p)
  {
    match p
    case Plain(v) => [Compare(name, Eq, v)]
    case Table(items) => seq(|items|, i requires 0 <= i < |items| => ExprFor(name, items[i].0, items[i].1))
  }

  function AllParts(where: seq<Entry>): seq<Expr>
    requires forall e <- where :: ValidPredicate(e.test)
  {
    if where == [] then []
    else AllParts(where[..|where| - 1]) + Parts(where[|where| - 1].name, where[|where| - 1].test)
  }

  function TreeOf(where: seq<Entry>): Option<Expr>
    requires forall e <- where :: ValidPredicate(e.test)
  {
    var parts := AllParts(where);
    if parts == [] then None else if |parts| == 1 then Some(parts[0]) else Some(And(parts))
  }

  /** The inner loop over the operators of one field. */
  method AppendParts(name: Name, selected: Predicate, before: seq<Expr>) returns (expressions: seq<Expr>)
    requires ValidPredicate(selected)
    ensures expressions == before + Parts(name, selected)
  {
    if selected.Plain? { return before + [Compare(name, Eq, selected.value)]; }
    expressions := before;
    for j := 0 to |selected.items|
      invariant expressions == before + Parts(name, selected)[..j]
    {
      var (o, x) := selected.items[j];
      assert selected.items[j] in selected.items;
      expressions := expressions + [ExprFor(name, o, x)];
    }
  }

  /** _predicate: the nested loops that append one expression per operator. */
  method PredicateTree(where: seq<Entry>) returns (r: Option<Expr>)
    requires ValidWhere(where)
    ensures r == TreeOf(where)
  {
    var expressions: seq<Expr> := [];
    for i := 0 to |where|
      invariant expressions == AllParts(where[..i])
    {
      assert where[..i + 1][..i] == where[..i] && where[i] in where;
      expressions := AppendParts(where[i].name, where[i].test, expressions);
    }
    assert where[..|where|] == where;
    if expressions == [] { return None; }
    if |expressions| == 1 { return Some(expressions[0]); }
    return Some(And(expressions));
  }

  /** A mapping key with `$` before the operator. */
  datatype Dollar = Dollar(operator: Operator)

  datatype Lowered = Literal(value: Value) | Operators(items: seq<(Dollar, Operand)>)

  function Lower(p: Predicate): Lowered {
    match p
    case Plain(v) => Literal(v)
    case Table(items) => Operators(seq(|items|, j requires 0 <= j < |items| => (Dollar(items[j].0), items[j].1)))
  }

  /** _expression_predicates. */
  function Mapping(where: seq<Entry>): (m: seq<(Name, Lowered)>)
    ensures |m| == |where|
  {
    seq(|where|, i requires 0 <= i < |where| =>
      (where[i].name, Lower(where[i].test)))
  }

  // ---- what the two forms accept ----

  type Record = map<Name, Value>

  /** A missing field reads as null. */
  function Get(r: Record, name: Name): Value { if name in r then r[name] else Null }

  /** The order within one type; null and values of different types are not ordered. */
  predicate Less(a: Value, b: Value) {
    match (a, b)
    case (Int(x), Int(y)) => x < y
    case (Text(x), Text(y)) => x < y
    case (Bool(x), Bool(y)) => !x && y
    case _ => false
  }

  predicate AtMost(a: Value, b: Value) { Less(a, b) || (a == b && a != Null) }

  predicate Satisfies(e: Expr, r: Record) {
    match e
    case Compare(f, o, v) =>
      (match o
       case Eq => Get(r, f) == v
       case Ne => Get(r, f) != v
       case Lt => Less(Get(r, f), v)
       case Lte => AtMost(Get(r, f), v)
       case Gt => Less(v, Get(r, f))
       case Gte => AtMost(v, Get(r, f))
       case _ => true)
    case Member(f, vs, negated) => (Get(r, f) in vs) != negated
    case NullTest(f, expected) => (Get(r, f) == Null) == expected
    case And(parts) => forall p <- parts :: Satisfies(p, r)
  }

  predicate SatisfiesTree(e: Option<Expr>, r: Record) { e.Some? ==> Satisfies(e.value, r) }

  /** The executor's comparison of one field with one `$` operator. */
  predicate Matched(actual: Value, o: Dollar, x: Operand) {
    match o.operator
    case In => x.Many? && actual in x.values
    case NotIn => x.Many? && actual !in x.values
    case IsNull => x.One? && Bool(actual == Null) == x.value
    case Eq => x.One? && actual == x.value
    case Ne => x.One? && actual != x.value
    case Gte => x.One? && actual != Null && AtMost(x.value, actual)
    case Gt => x.One? && actual != Null && Less(x.value, actual)
    case Lte => x.One? && actual != Null && AtMost(actual, x.value)
    case Lt => x.One? && actual != Null && Less(actual, x.value)
  }

  predicate Accepts(p: Lowered, actual: Value) {
    match p
    case Literal(v) => actual == v
    case Operators(items) => forall item <- items :: Matched(actual, item.0, item.1)
  }

  /** The executor's filter over a record. */
  predicate AcceptsRecord(m: seq<(Name, Lowered)>, r: Record) {
    forall item <- m :: Accepts(item.1, Get(r, item.0))
  }

  lemma OperatorsAgree(name: Name, o: Operator, x: Operand, r: Record)
    requires CheckOperand(o, x) == None
    ensures Satisfies(ExprFor(name, o, x), r) <==> Matched(Get(r, name), Dollar(o), x)
  {
  }

  predicate AllSatisfied(parts: seq<Expr>, r: Record) { forall p <- parts :: Satisfies(p, r) }

  lemma EntriesAgree(where: seq<Entry>, i: nat, r: Record)
    requires i < |where| && ValidPredicate(where[i].test)
    ensures AllSatisfied(Parts(where[i].name, where[i].test), r)
       <==> Accepts(Mapping(where)[i].1, Get(r, where[i].name))
  {
    var e := where[i];
    var parts := Parts(e.name, e.test);
    if e.test.Table? {
      var items := e.test.items;
      var lowered := Mapping(where)[i].1.items;
      forall j | 0 <= j < |items|
        ensures Satisfies(parts[j], r) <==> Matched(Get(r, e.name), lowered[j].0, lowered[j].1)
      {
        assert items[j] in items;
        OperatorsAgree(e.name, items[j].0, items[j].1, r);
      }
      if AllSatisfied(parts, r) {
        forall item | item in lowered ensures Matched(Get(r, e.name), item.0, item.1) {
          var j :| 0 <= j < |lowered| && lowered[j] == item;
          assert parts[j] in parts;
        }
      }
      if Accepts(Operators(lowered), Get(r, e.name)) {
        forall p | p in parts ensures Satisfies(p, r) {
          var j :| 0 <= j < |parts| && parts[j] == p;
          assert lowered[j] in lowered;
        }
      }
    } else {
      assert parts[0] in parts && forall p <- parts :: p == parts[0];
    }
  }

  lemma AcceptsAppend(m: seq<(Name, Lowered)>, item: (Name, Lowered), r: Record)
    ensures AcceptsRecord(m + [item], r) <==> AcceptsRecord(m, r) && Accepts(item.1, Get(r, item.0))
  {
    assert forall x :: x in m + [item] <==> x in m || x == item;
  }

  lemma SatisfiedAppend(a: seq<Expr>, b: seq<Expr>, r: Record)
    ensures AllSatisfied(a + b, r) <==> AllSatisfied(a, r) && AllSatisfied(b, r)
  {
    assert forall p :: p in a + b <==> p in a || p in b;
  }

  /** One entry more on both sides. */
  lemma MappingAppends(where: seq<Entry>, r: Record)
    requires where != []
    ensures var i := |where| - 1;
      AcceptsRecord(Mapping(where), r) <==>
        AcceptsRecord(Mapping(where[..i]), r) && Accepts(Mapping(where)[i].1, Get(r, where[i].name))
  {
    var i := |where| - 1;
    assert Mapping(where) == Mapping(where[..i]) + [Mapping(where)[i]];
    AcceptsAppend(Mapping(where[..i]), Mapping(where)[i], r);
  }

  lemma {:induction false} ListsAgree(where: seq<Entry>, r: Record)
    requires forall e <- where :: ValidPredicate(e.test)
    ensures AllSatisfied(AllParts(where), r) <==> AcceptsRecord(Mapping(where), r)
  {
    if where == [] {
      assert AllParts(where) == [] && Mapping(where) == [];
    } else {
      var before, i := where[..|where| - 1], |where| - 1;
      ListsAgree(before, r);
      EntriesAgree(where, i, r);
      MappingAppends(where, r);
      SatisfiedAppend(AllParts(before), Parts(where[i].name, where[i].test), r);
    }
  }

  /** The two lowerings of one validated predicate map accept the same records. */
  lemma LoweringsAgree(where: seq<Entry>, r: Record)
    requires ValidWhere(where)
    ensures SatisfiesTree(TreeOf(where), r) <==> AcceptsRecord(Mapping(where), r)
  {
    ListsAgree(where, r);
    var parts := AllParts(where);
    if |parts| == 1 {
      assert forall p <- parts :: p == parts[0];
      assert parts[0] in parts;
    }
  }

  // ---- from the caller's map to the records ----

  /** What the caller's predicate asks of a field, before any of it is checked or sorted. */
  predicate Asks(p: RawPredicate, actual: Value) {
    match p
    case RawPlain(v) => actual == v
    case RawTable(items) => forall item <- items :: item.0.Known? && Matched(actual, Dollar(item.0.operator), item.1)
  }

  /** An operator that is supported, with an operand of its kind. */
  predicate WellFormedItem(item: (RawOperator, Operand)) {
    item.0.Known? &&
      if item.0.operator == In || item.0.operator == NotIn then item.1.Many? && 1 <= |item.1.values| <= 100
      else item.1.One? && (item.0.operator == IsNull ==> item.1.value.Bool?)
  }

  predicate WellFormed(p: RawPredicate) {
    p.RawTable? ==> p.items != [] && forall item <- p.items :: WellFormedItem(item)
  }

  lemma {:induction false} CheckItemsExactly(items: seq<(RawOperator, Operand)>)
    ensures CheckItems(items).Ok? <==> forall item <- items :: WellFormedItem(item)
    ensures CheckItems(items).Ok? ==> forall x :: x in CheckItems(items).value <==> (Known(x.0), x.1) in items
  {
    if items != [] {
      CheckItemsExactly(items[1..]);
      assert items == [items[0]] + items[1..];
      assert items[0] in items;
      if CheckItems(items).Err? && WellFormedItem(items[0]) {
        var item :| item in items[1..] && !WellFormedItem(item);
        assert item in items;
      }
      if CheckItems(items).Ok? {
        assert items[0].0 == Known(items[0].0.operator);
        forall x ensures x in CheckItems(items).value <==> (Known(x.0), x.1) in items { }
      }
    }
  }

  lemma LoweredItems(items: seq<(Operator, Operand)>, actual: Value)
    ensures Accepts(Lower(Table(items)), actual) <==> forall x <- items :: Matched(actual, Dollar(x.0), x.1)
  {
    var lowered := Lower(Table(items)).items;
    if Accepts(Operators(lowered), actual) {
      forall x | x in items ensures Matched(actual, Dollar(x.0), x.1) {
        var j :| 0 <= j < |items| && items[j] == x;
        assert lowered[j] in lowered;
      }
    }
    if forall x <- items :: Matched(actual, Dollar(x.0), x.1) {
      forall item | item in lowered ensures Matched(actual, item.0, item.1) {
        var j :| 0 <= j < |lowered| && lowered[j] == item;
        assert items[j] in items;
      }
    }
  }

  /** A predicate is accepted exactly when it is well formed, and keeps its meaning. */
  lemma CheckedExactly(p: RawPredicate, actual: Value)
    ensures CheckPredicate(p).Ok? <==> WellFormed(p)
    ensures CheckPredicate(p).Ok? ==> (Accepts(Lower(CheckPredicate(p).value), actual) <==> Asks(p, actual))
  {
    if p.RawTable? {
      CheckItemsExactly(p.items);
      if CheckPredicate(p).Ok? {
        var checked := CheckItems(p.items).value;
        var sorted := Sort(ByOperator, checked);
        SortIsSorted(ByOperator, checked);
        forall x ensures x in sorted <==> x in checked {
          assert x in sorted <==> x in multiset(sorted);
          assert x in checked <==> x in multiset(checked);
        }
        LoweredItems(sorted, actual);
        SameAsks(p.items, checked, actual);
      }
    }
  }

  lemma SameAsks(items: seq<(RawOperator, Operand)>, checked: seq<(Operator, Operand)>, actual: Value)
    requires forall item <- items :: WellFormedItem(item)
    requires forall x :: x in checked <==> (Known(x.0), x.1) in items
    ensures Asks(RawTable(items), actual) <==> forall x <- checked :: Matched(actual, Dollar(x.0), x.1)
  {
    if forall x <- checked :: Matched(actual, Dollar(x.0), x.1) {
      forall item | item in items ensures item.0.Known? && Matched(actual, Dollar(item.0.operator), item.1) {
        assert WellFormedItem(item);
        assert item == (Known(item.0.operator), item.1);
        assert (item.0.operator, item.1) in checked;
      }
    }
  }

  /** No later item has the name of item `i`. */
  predicate IsLast(raw: seq<(Name, RawPredicate)>, i: nat)
    requires i < |raw|
  {
    forall j :: i < j < |raw| ==> raw[j].0 != raw[i].0
  }

  lemma {:induction false} MappingAccepts(where: seq<Entry>, r: Record)
    ensures AcceptsRecord(Mapping(where), r) <==> forall e <- where :: Accepts(Lower(e.test), Get(r, e.name))
  {
    var m := Mapping(where);
    if AcceptsRecord(m, r) {
      forall e | e in where ensures Accepts(Lower(e.test), Get(r, e.name)) {
        var i :| 0 <= i < |where| && where[i] == e;
        assert m[i] in m && m[i] == (e.name, Lower(e.test));
      }
    }
    if forall e <- where :: Accepts(Lower(e.test), Get(r, e.name)) {
      forall item | item in m ensures Accepts(item.1, Get(r, item.0)) {
        var i :| 0 <= i < |m| && m[i] == item;
        assert where[i] in where && m[i] == (where[i].name, Lower(where[i].test));
      }
    }
  }

  /** End to end: a predicate map that is accepted selects exactly the records that satisfy the
      last predicate given for every name, in both lowerings. */
  lemma WhereMeans(raw: seq<(Name, RawPredicate)>, r: Record)
    requires WhereOf(raw).Ok?
    ensures AcceptsRecord(Mapping(WhereOf(raw).value), r) <==>
      forall i :: 0 <= i < |raw| && IsLast(raw, i) ==> Asks(raw[i].1, Get(r, raw[i].0))
    ensures ValidWhere(WhereOf(raw).value)
    ensures SatisfiesTree(TreeOf(WhereOf(raw).value), r) <==> AcceptsRecord(Mapping(WhereOf(raw).value), r)
  {
    var where := WhereOf(raw).value;
    OutputIsValid(raw);
    WhereIsValid(Output(raw).value);
    LoweringsAgree(where, r);
    WhereExactly(raw);
    MappingAccepts(where, r);
    if AcceptsRecord(Mapping(where), r) {
      forall i | 0 <= i < |raw| && IsLast(raw, i) ensures Asks(raw[i].1, Get(r, raw[i].0)) {
        CheckedExactly(raw[i].1, Get(r, raw[i].0));
        assert LastItem(raw, Entry(raw[i].0, CheckPredicate(raw[i].1).value));
      }
    }
    if forall i :: 0 <= i < |raw| && IsLast(raw, i) ==> Asks(raw[i].1, Get(r, raw[i].0)) {
      forall e | e in where ensures Accepts(Lower(e.test), Get(r, e.name)) {
        assert LastItem(raw, e);
        var i :| 0 <= i < |raw| && raw[i].0 == e.name && CheckPredicate(raw[i].1) == Ok(e.test)
          && forall j :: i < j < |raw| ==> raw[j].0 != e.name;
        assert IsLast(raw, i);
        CheckedExactly(raw[i].1, Get(r, raw[i].0));
      }
    }
  }
}

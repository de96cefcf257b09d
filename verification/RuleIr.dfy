/**
 Lowering rules to the intermediate form: `lower_gpl_to_ir` and what it calls in
 src/bin/radnet_tools.rs.
 */
module RuleIr {
  import opened GplText
  import opened Outcome
  import opened TextTools
  import opened ByteCodec
  import StableSort

  /** A 64-bit float, as its little-endian bytes. */
  type Bits = b: seq<byte> | |b| == 8 witness seq(8, _ => 0)

  /** What floats the program can parse, and how they compare; comparisons may all fail, as they do on NaN. */
  datatype Floats = Floats(
    parse: string -> Option<Bits>, finite: Bits -> bool, ofI64: int -> Bits,
    equal: (Bits, Bits) -> bool, atLeast: (Bits, Bits) -> bool, atMost: (Bits, Bits) -> bool,
    above: (Bits, Bits) -> bool, below: (Bits, Bits) -> bool)

  /** A JSON scalar; a number is kept as the float it converts to. */
  datatype Value = Number(bits: Bits) | Boolean(truth: bool) | Word(text: string)

  /** The texts the JSON form may hold, told apart as far as the program does. */
  datatype Op = Eq | Ne | Ge | Le | Gt | Lt | OtherOp(text: string)
  datatype ValueType = Num | Bool | Str | OtherType(text: string)
  datatype Kind = PhyAction | OtherKind(text: string)

  datatype Predicate = Predicate(field: string, op: Op, valueType: ValueType, value: Value)
  datatype Rule = Rule(name: string, priority: int, predicates: seq<Predicate>, kind: Kind, values: Fields)

  function Symbol(op: Op): string {
    match op
    case Eq => "=="
    case Ne => "!="
    case Ge => ">="
    case Le => "<="
    case Gt => ">"
    case Lt => "<"
    case OtherOp(text) => text
  }

  datatype LowerError =
    | MissingField(text: string)
    | UnsupportedSyntax(text: string)
    | SlicePanic(text: string)

  datatype Lowered<+T> = Done(value: T) | Stopped(error: LowerError)

  // ---- Predicates -----------------------------------------------------------

  predicate Quoted(text: string, quote: char) {
    text != [] && text[0] == quote && text[|text| - 1] == quote
  }

  /** `parse_scalar`; a lone quote makes it slice `[1..0]` and panic. */
  function ParseScalar(floats: Floats, raw: string): Lowered<(ValueType, Value)> {
    var text := Trim(raw);
    if SameIgnoringCase(text, "true") then Done((Bool, Boolean(true)))
    else if SameIgnoringCase(text, "false") then Done((Bool, Boolean(false)))
    else if Quoted(text, '"') || Quoted(text, '\'') then
      if |text| == 1 then Stopped(SlicePanic(text)) else Done((Str, Word(text[1..|text| - 1])))
    else
      var number := ParseNumber(floats, text);
      Done(if number.Some? then (Num, Number(number.value)) else (Str, Word(text)))
  }

  /** With a point a finite float, without one a 64-bit integer. */
  function ParseNumber(floats: Floats, text: string): Option<Bits> {
    if '.' in text then
      var bits := floats.parse(text);
      if bits.Some? && floats.finite(bits.value) then bits else None
    else
      var n := ParseI64(text);
      if n.Some? then Some(floats.ofI64(n.value)) else None
  }

  const OPERATORS: seq<Op> := [Eq, Ne, Ge, Le, Gt, Lt]

  /** `split_predicate`: the first operator in the list that occurs anywhere in the text. */
  function SplitPredicate(text: string, ops: seq<Op>): Lowered<(string, Op, string)> {
    if ops == [] then Stopped(UnsupportedSyntax(text))
    else
      var sides := SplitOnce(text, Symbol(ops[0]));
      if sides.None? then SplitPredicate(text, ops[1..])
      else
        var field := Trim(sides.value.0);
        if field == [] then Stopped(MissingField(text)) else Done((field, ops[0], Trim(sides.value.1)))
  }

  function CompilePredicate(floats: Floats, chunk: string): Lowered<Predicate> {
    match SplitPredicate(chunk, OPERATORS)
    case Stopped(e) => Stopped(e)
    case Done((field, op, raw)) =>
      match ParseScalar(floats, raw)
      case Stopped(e) => Stopped(e)
      case Done((valueType, value)) => Done(Predicate(field, op, valueType, value))
  }

  function CompileChunks(floats: Floats, chunks: seq<string>): Lowered<seq<Predicate>>
    decreases |chunks|
  {
    if chunks == [] then Done([])
    else if Trim(chunks[0]) == [] then CompileChunks(floats, chunks[1..])
    else
      match CompilePredicate(floats, Trim(chunks[0]))
      case Stopped(e) => Stopped(e)
      case Done(p) =>
        match CompileChunks(floats, chunks[1..])
        case Stopped(e) => Stopped(e)
        case Done(ps) => Done([p] + ps)
  }

  function After<T>(done: seq<T>, rest: Lowered<seq<T>>): Lowered<seq<T>> {
    match rest
    case Stopped(e) => Stopped(e)
    case Done(xs) => Done(done + xs)
  }

  /** `compile_predicates`. */
  method CompilePredicates(floats: Floats, when: string) returns (r: Lowered<seq<Predicate>>)
    ensures r == CompileChunks(floats, Split(when, " and "))
  {
    var chunks := Split(when, " and ");
    var out: seq<Predicate> := [];
    ghost var goal := CompileChunks(floats, chunks);
    assert goal.Done? ==> [] + goal.value == goal.value;
    for i := 0 to |chunks|
      invariant After(out, CompileChunks(floats, chunks[i..])) == goal
    {
      assert chunks[i..][0] == chunks[i] && chunks[i..][1..] == chunks[i + 1..];
      var chunk := Trim(chunks[i]);
      if chunk != [] {
        var compiled := CompilePredicate(floats, chunk);
        if compiled.Stopped? {
          return Stopped(compiled.error);
        }
        AfterStep(out, compiled.value, CompileChunks(floats, chunks[i + 1..]));
        out := out + [compiled.value];
      }
    }
    assert out + [] == out;
    r := Done(out);
  }

  lemma AfterStep<T>(done: seq<T>, x: T, rest: Lowered<seq<T>>)
    ensures After(done, After([x], rest)) == After(done + [x], rest)
  {
    if rest.Done? {
      assert done + ([x] + rest.value) == done + [x] + rest.value;
    }
  }

  // ---- Rules ----------------------------------------------------------------

  function CompileRule(floats: Floats, r: AstRule): Lowered<Rule> {
    match CompileChunks(floats, Split(r.when, " and "))
    case Stopped(e) => Stopped(e)
    case Done(predicates) => Done(Rule(r.name, r.priority, predicates, PhyAction, r.phy))
  }

  function CompileRules(floats: Floats, rules: seq<AstRule>): Lowered<seq<Rule>> {
    if rules == [] then Done([])
    else
      match CompileRule(floats, rules[0])
      case Stopped(e) => Stopped(e)
      case Done(r) => After([r], CompileRules(floats, rules[1..]))
  }

  /** Highest priority first, then the least name. */
  predicate Precedes(a: Rule, b: Rule) {
    a.priority > b.priority || (a.priority == b.priority && Less(a.name, b.name))
  }

  function SortRules(rules: seq<Rule>): seq<Rule> {
    StableSort.Sort(Precedes, rules)
  }

  function Lower(floats: Floats, rules: seq<AstRule>): Lowered<seq<Rule>> {
    match CompileRules(floats, rules)
    case Stopped(e) => Stopped(e)
    case Done(ir) => Done(SortRules(ir))
  }

  /** `lower_gpl_to_ir`. */
  method LowerRules(floats: Floats, rules: seq<AstRule>) returns (r: Lowered<seq<Rule>>)
    ensures r == Lower(floats, rules)
  {
    var ir: seq<Rule> := [];
    ghost var goal := CompileRules(floats, rules);
    assert goal.Done? ==> [] + goal.value == goal.value;
    for i := 0 to |rules|
      invariant After(ir, CompileRules(floats, rules[i..])) == goal
    {
      assert rules[i..][0] == rules[i] && rules[i..][1..] == rules[i + 1..];
      var predicates := CompilePredicates(floats, rules[i].when);
      if predicates.Stopped? {
        return Stopped(predicates.error);
      }
      var rule := Rule(rules[i].name, rules[i].priority, predicates.value, PhyAction, rules[i].phy);
      AfterStep(ir, rule, CompileRules(floats, rules[i + 1..]));
      ir := ir + [rule];
    }
    assert ir + [] == ir;
    r := Done(SortRules(ir));
  }

  // ---- The order ------------------------------------------------------------

  lemma PrecedesTransitive(a: Rule, b: Rule, c: Rule)
    ensures !Precedes(b, a) && !Precedes(c, b) ==> !Precedes(c, a)
  {
    LessTotal(a.name, b.name);
    LessTotal(b.name, c.name);
    LessTotal(a.name, c.name);
    if Less(c.name, a.name) && Less(a.name, b.name) {
      LessTransitive(c.name, a.name, b.name);
    }
    if Less(b.name, c.name) && Less(c.name, a.name) {
      LessTransitive(b.name, c.name, a.name);
    }
  }

  lemma PrecedesIsWeakOrder()
    ensures StableSort.WeakOrder(Precedes)
  {
    forall a: Rule, b: Rule | Precedes(a, b)
      ensures !Precedes(b, a)
    {
      LessTotal(a.name, b.name);
    }
    forall a: Rule, b: Rule, c: Rule
      ensures StableSort.ChainsAt(Precedes, a, b, c)
    {
      PrecedesTransitive(a, b, c);
    }
  }

  /** Two rules tie in the order exactly when their priorities and names are equal. */
  lemma TiesAre(a: Rule, b: Rule)
    ensures StableSort.Ties(Precedes, a, b) <==> a.priority == b.priority && a.name == b.name
  {
    LessTotal(a.name, b.name);
    LessIrreflexive(a.name);
  }

  ghost predicate Ordered(rules: seq<Rule>) {
    forall i, j :: 0 <= i < j < |rules| ==> !Precedes(rules[j], rules[i])
  }

  /** Sorted rules are in order, and none is lost or added. */
  lemma SortOrdered(rules: seq<Rule>)
    ensures Ordered(SortRules(rules)) && multiset(SortRules(rules)) == multiset(rules)
  {
    PrecedesIsWeakOrder();
    StableSort.SortOrdered(Precedes, rules);
    forall i, j | 0 <= i < j < |SortRules(rules)|
      ensures !Precedes(SortRules(rules)[j], SortRules(rules)[i])
    {
      assert StableSort.Ordered(Precedes, SortRules(rules));
    }
  }

  /** In front stands the higher priority and, at equal priorities, not the later name. */
  lemma SortedMeans(rules: seq<Rule>, i: nat, j: nat)
    requires i < j < |SortRules(rules)|
    ensures var a, b := SortRules(rules)[i], SortRules(rules)[j];
            a.priority > b.priority || (a.priority == b.priority && (a.name == b.name || Less(a.name, b.name)))
  {
    SortOrdered(rules);
    var a, b := SortRules(rules)[i], SortRules(rules)[j];
    assert !Precedes(b, a);
    LessTotal(a.name, b.name);
  }

  /** Rules of one priority and name keep the order they were written in. */
  lemma SortKeepsTies(rules: seq<Rule>, k: Rule)
    ensures StableSort.Tied(Precedes, SortRules(rules), k) == StableSort.Tied(Precedes, rules, k)
  {
    PrecedesIsWeakOrder();
    StableSort.SortKeepsTies(Precedes, rules, k);
  }

  // ---- What lowered predicates look like ------------------------------------

  /** The value is of the kind its type says. */
  predicate TypeFits(valueType: ValueType, value: Value) {
    match valueType
    case Num => value.Number?
    case Bool => value.Boolean?
    case Str => value.Word?
    case OtherType(_) => false
  }

  /** A known operator, and a value of the kind its type says. */
  predicate Consistent(p: Predicate) {
    !p.op.OtherOp? && TypeFits(p.valueType, p.value)
  }

  ghost predicate AllConsistent(rules: seq<Rule>) {
    forall i :: 0 <= i < |rules| ==> RuleConsistent(rules[i])
  }

  ghost predicate RuleConsistent(r: Rule) {
    r.kind == PhyAction && forall k :: 0 <= k < |r.predicates| ==> Consistent(r.predicates[k])
  }

  lemma {:induction false} SplitFindsOperator(text: string, ops: seq<Op>)
    ensures SplitPredicate(text, ops).Done? ==> SplitPredicate(text, ops).value.1 in ops
  {
    if ops != [] && SplitOnce(text, Symbol(ops[0])).None? {
      SplitFindsOperator(text, ops[1..]);
    }
  }

  lemma ScalarFits(floats: Floats, raw: string)
    ensures var scalar := ParseScalar(floats, raw);
            scalar.Done? ==> TypeFits(scalar.value.0, scalar.value.1)
  {
  }

  lemma CompiledConsistent(floats: Floats, chunk: string)
    ensures CompilePredicate(floats, chunk).Done? ==> Consistent(CompilePredicate(floats, chunk).value)
  {
    var sides := SplitPredicate(chunk, OPERATORS);
    SplitFindsOperator(chunk, OPERATORS);
    if sides.Done? {
      ScalarFits(floats, sides.value.2);
    }
  }

  lemma {:induction false} ChunksConsistent(floats: Floats, chunks: seq<string>)
    ensures var compiled := CompileChunks(floats, chunks);
            compiled.Done? ==> forall k :: 0 <= k < |compiled.value| ==> Consistent(compiled.value[k])
    decreases |chunks|
  {
    if chunks != [] {
      CompiledConsistent(floats, Trim(chunks[0]));
      ChunksConsistent(floats, chunks[1..]);
    }
  }

  lemma CompiledRuleConsistent(floats: Floats, r: AstRule)
    ensures CompileRule(floats, r).Done? ==> RuleConsistent(CompileRule(floats, r).value)
  {
    var chunks := Split(r.when, " and ");
    ChunksConsistent(floats, chunks);
    if CompileRule(floats, r).Done? {
      assert CompileRule(floats, r).value.predicates == CompileChunks(floats, chunks).value;
    }
  }

  lemma {:induction false} RulesConsistent(floats: Floats, rules: seq<AstRule>)
    ensures CompileRules(floats, rules).Done? ==> AllConsistent(CompileRules(floats, rules).value)
  {
    if rules != [] {
      CompiledRuleConsistent(floats, rules[0]);
      RulesConsistent(floats, rules[1..]);
      if CompileRules(floats, rules).Done? {
        var first, rest := CompileRule(floats, rules[0]).value, CompileRules(floats, rules[1..]).value;
        assert CompileRules(floats, rules).value == [first] + rest;
      }
    }
  }

  /** Everything the compiler lowers is consistent and comes out in order, none lost or added. */
  lemma LoweredConsistent(floats: Floats, rules: seq<AstRule>)
    requires Lower(floats, rules).Done?
    ensures AllConsistent(Lower(floats, rules).value) && Ordered(Lower(floats, rules).value)
    ensures multiset(Lower(floats, rules).value) == multiset(CompileRules(floats, rules).value)
  {
    var ir := CompileRules(floats, rules).value;
    RulesConsistent(floats, rules);
    SortOrdered(ir);
    forall i | 0 <= i < |SortRules(ir)|
      ensures RuleConsistent(SortRules(ir)[i])
    {
      assert SortRules(ir)[i] in multiset(ir);
      var k :| 0 <= k < |ir| && ir[k] == SortRules(ir)[i];
      assert RuleConsistent(ir[k]);
    }
  }

  // ---- When lowering stops --------------------------------------------------

  /** A single quote character, of either kind. */
  predicate LoneQuote(text: string) {
    text == "\"" || text == "'"
  }

  /** `parse_scalar` panics exactly on a lone quote, whatever floats are. */
  lemma ScalarPanicsIff(floats: Floats, raw: string)
    ensures ParseScalar(floats, raw).Stopped? <==> LoneQuote(Trim(raw))
    ensures ParseScalar(floats, raw).Stopped? ==> ParseScalar(floats, raw).error == SlicePanic(Trim(raw))
  {
    var text := Trim(raw);
    if |text| == 1 {
      assert !SameIgnoringCase(text, "true") && !SameIgnoringCase(text, "false");
      assert text == [text[0]];
    }
  }

  /** What is wrong with one condition, as far as its text tells. */
  function Fault(chunk: string): Option<LowerError> {
    match SplitPredicate(chunk, OPERATORS)
    case Stopped(e) => Some(e)
    case Done((_, _, raw)) => if LoneQuote(raw) then Some(SlicePanic(raw)) else None
  }

  /** The conditions of a `when` text: its parts between `and`s, trimmed, the empty ones left out. */
  function Conditions(parts: seq<string>): seq<string> {
    if parts == [] then []
    else (if Trim(parts[0]) == [] then [] else [Trim(parts[0])]) + Conditions(parts[1..])
  }

  /** The conditions of all rules, in the order they are written. */
  function AllConditions(rules: seq<AstRule>): seq<string> {
    if rules == [] then []
    else Conditions(Split(rules[0].when, " and ")) + AllConditions(rules[1..])
  }

  function FirstFault(chunks: seq<string>): Option<LowerError> {
    if chunks == [] then None
    else if Fault(chunks[0]).Some? then Fault(chunks[0])
    else FirstFault(chunks[1..])
  }

  lemma {:induction false} FirstFaultOfBoth(a: seq<string>, b: seq<string>)
    ensures FirstFault(a + b) == if FirstFault(a).Some? then FirstFault(a) else FirstFault(b)
  {
    if a == [] {
      assert a + b == b;
    } else {
      assert (a + b)[1..] == a[1..] + b;
      FirstFaultOfBoth(a[1..], b);
    }
  }

  /** Stopped by the fault, or not at all if there is none. */
  predicate StoppedBy<T>(r: Lowered<T>, fault: Option<LowerError>) {
    if fault.Some? then r == Stopped(fault.value) else r.Done?
  }

  lemma {:induction false} SplitTrims(text: string, ops: seq<Op>)
    ensures var sides := SplitPredicate(text, ops);
            sides.Done? ==> Trim(sides.value.2) == sides.value.2
    ensures SplitPredicate(text, ops).Stopped? ==> !SplitPredicate(text, ops).error.SlicePanic?
  {
    if ops != [] {
      var sides := SplitOnce(text, Symbol(ops[0]));
      if sides.None? {
        SplitTrims(text, ops[1..]);
      } else {
        TrimIsTrimmed(sides.value.1);
        TrimTrimmed(Trim(sides.value.1));
      }
    }
  }

  lemma CompileStops(floats: Floats, chunk: string)
    ensures StoppedBy(CompilePredicate(floats, chunk), Fault(chunk))
  {
    var sides := SplitPredicate(chunk, OPERATORS);
    if sides.Done? {
      SplitTrims(chunk, OPERATORS);
      ScalarPanicsIff(floats, sides.value.2);
    }
  }

  lemma {:induction false} ChunksStop(floats: Floats, parts: seq<string>)
    ensures StoppedBy(CompileChunks(floats, parts), FirstFault(Conditions(parts)))
    decreases |parts|
  {
    if parts != [] {
      ChunksStop(floats, parts[1..]);
      var chunk := Trim(parts[0]);
      if chunk != [] {
        CompileStops(floats, chunk);
        FirstFaultOfBoth([chunk], Conditions(parts[1..]));
        assert FirstFault([chunk]) == Fault(chunk);
      } else {
        assert Conditions(parts) == Conditions(parts[1..]);
      }
    }
  }

  lemma {:induction false} RulesStop(floats: Floats, rules: seq<AstRule>)
    ensures StoppedBy(CompileRules(floats, rules), FirstFault(AllConditions(rules)))
  {
    if rules != [] {
      var parts := Split(rules[0].when, " and ");
      ChunksStop(floats, parts);
      RulesStop(floats, rules[1..]);
      FirstFaultOfBoth(Conditions(parts), AllConditions(rules[1..]));
    }
  }

  /**
   Lowering stops with the fault of the first faulty condition, in the order the
   conditions are written, and not at all if none has one: whether and how it
   stops can be read off the `when` texts alone.
   */
  lemma LowerStopsIff(floats: Floats, rules: seq<AstRule>)
    ensures StoppedBy(Lower(floats, rules), FirstFault(AllConditions(rules)))
  {
    RulesStop(floats, rules);
  }

  /** The condition compares with a lone quote. */
  predicate ComparesLoneQuote(chunk: string) {
    SplitPredicate(chunk, OPERATORS).Done? && LoneQuote(SplitPredicate(chunk, OPERATORS).value.2)
  }

  /** Some condition compares with a lone quote, and none written before it is faulty. */
  ghost predicate LoneQuoteFirst(chunks: seq<string>) {
    exists k :: 0 <= k < |chunks| && ComparesLoneQuote(chunks[k]) && forall j :: 0 <= j < k ==> Fault(chunks[j]) == None
  }

  lemma LoneQuoteLater(chunks: seq<string>)
    requires chunks != [] && Fault(chunks[0]) == None && LoneQuoteFirst(chunks[1..])
    ensures LoneQuoteFirst(chunks)
  {
    var rest := chunks[1..];
    var k :| 0 <= k < |rest| && ComparesLoneQuote(rest[k]) && forall j :: 0 <= j < k ==> Fault(rest[j]) == None;
    assert ComparesLoneQuote(chunks[k + 1]) && forall j :: 0 < j < k + 1 ==> chunks[j] == rest[j - 1];
  }

  lemma LoneQuoteBehind(chunks: seq<string>)
    requires chunks != [] && Fault(chunks[0]) == None && LoneQuoteFirst(chunks)
    ensures LoneQuoteFirst(chunks[1..])
  {
    var rest := chunks[1..];
    var k :| 0 <= k < |chunks| && ComparesLoneQuote(chunks[k]) && forall j :: 0 <= j < k ==> Fault(chunks[j]) == None;
    assert k > 0 && ComparesLoneQuote(rest[k - 1]) && forall j :: 0 <= j < k - 1 ==> rest[j] == chunks[j + 1];
  }

  lemma {:induction false} FirstFaultPanics(chunks: seq<string>)
    ensures LoneQuoteFirst(chunks) <==> FirstFault(chunks).Some? && FirstFault(chunks).value.SlicePanic?
  {
    if chunks != [] {
      SplitTrims(chunks[0], OPERATORS);
      if Fault(chunks[0]) == None {
        FirstFaultPanics(chunks[1..]);
        if LoneQuoteFirst(chunks) {
          LoneQuoteBehind(chunks);
        }
        if LoneQuoteFirst(chunks[1..]) {
          LoneQuoteLater(chunks);
        }
      }
    }
  }

  /**
   Lowering panics exactly when some condition compares with a lone quote and
   none written before it is faulty.
   */
  lemma LowerPanicsIff(floats: Floats, rules: seq<AstRule>)
    ensures Lower(floats, rules).Stopped? && Lower(floats, rules).error.SlicePanic?
            <==> LoneQuoteFirst(AllConditions(rules))
  {
    LowerStopsIff(floats, rules);
    FirstFaultPanics(AllConditions(rules));
  }

  /** A rule whose condition is `x=="`: lowering it panics. */
  lemma LoneQuotePanics(floats: Floats, name: string, priority: int, phy: Fields)
    ensures Lower(floats, [AstRule(name, priority, "x==\"", phy)]) == Stopped(SlicePanic("\""))
  {
    var when := "x==\"";
    FindLacking(when, " and ", ' ');
    TrimTrimmed(when);
    SplitOnceBehind("x", "==", "\"");
    assert "x" + "==" + "\"" == when;
    TrimTrimmed("x");
    TrimTrimmed("\"");
    var rule := AstRule(name, priority, when, phy);
    assert [rule][1..] == [];
    assert Split(when, " and ") == [when];
    assert Fault(when) == Some(SlicePanic("\""));
    assert Conditions([when]) == [when];
    assert AllConditions([rule]) == [when];
    LowerStopsIff(floats, [rule]);
  }
}

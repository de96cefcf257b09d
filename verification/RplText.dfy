/** The compiled rule text of src/raman.rs: its parser, and the order it puts rules in. */
module RplText {
  import M = MirrorExecutor
  import opened Outcome
  import StableSort
  import opened TextTools

  datatype RplError =
    | InvalidHeader(line: string)
    | InvalidBody(line: string)
    | InvalidInteger(text: string)
    | MissingArrow(line: string)
    | InvalidPredicate(token: string)
    | InvalidAction(text: string)
    | InvalidPayload(text: string)
    | InvalidPair(pair: string)

  // ---- One line -------------------------------------------------------------

  /** The text without quotes around it. */
  function Unquoted(text: string): string {
    TrimMatches(TrimMatches(Trim(text), '"'), '\'')
  }

  const OPERATORS: seq<string> := [">=", "<=", "==", ">", "<"]

  /** `parse_predicate`: the first operator in the list that occurs anywhere in the token. */
  function ParsePredicate(token: string, ops: seq<string>): Result<M.Predicate, RplError> {
    if ops == [] then Err(InvalidPredicate(token))
    else
      var sides := SplitOnce(token, ops[0]);
      if sides.None? then ParsePredicate(token, ops[1..])
      else Ok(M.Predicate(Trim(sides.value.0), ops[0], Unquoted(sides.value.1)))
  }

  function ParsePredicates(tokens: seq<string>): Result<seq<M.Predicate>, RplError> {
    if tokens == [] then Ok([])
    else
      match ParsePredicate(Trim(tokens[0]), OPERATORS)
      case Err(e) => Err(e)
      case Ok(p) =>
        match ParsePredicates(tokens[1..])
        case Err(e) => Err(e)
        case Ok(ps) => Ok([p] + ps)
  }

  function KindOf(text: string): M.Kind {
    if text == "contract" then M.Contract
    else if text == "phy" then M.Phy
    else if text == "transport" then M.Transport
    else if text == "ris" then M.Ris
    else if text == "verify" then M.Verify
    else if text == "hold" then M.Hold
    else if text == "cooldown" then M.Cooldown
    else M.Unknown(text)
  }

  function ParsePairs(pairs: seq<string>): Result<M.Values, RplError> {
    if pairs == [] then Ok([])
    else
      var sides := SplitOnce(pairs[0], "=");
      if sides.None? then Err(InvalidPair(pairs[0]))
      else
        match ParsePairs(pairs[1..])
        case Err(e) => Err(e)
        case Ok(values) => Ok([(Trim(sides.value.0), Unquoted(sides.value.1))] + values)
  }

  /** `parse_action`: `kind(key=value, ...)`. */
  function ParseAction(raw: string): Result<(M.Kind, M.Values), RplError> {
    var sides := SplitOnce(raw, "(");
    if sides.None? then Err(InvalidAction(raw))
    else if !EndsWith(sides.value.1, ")") then Err(InvalidPayload(raw))
    else
      var payload := sides.value.1[..|sides.value.1| - 1];
      match (if Trim(payload) == [] then Ok([]) else ParsePairs(Split(payload, ",")))
      case Err(e) => Err(e)
      case Ok(values) => Ok((KindOf(Trim(sides.value.0)), values))
  }

  /** The priority a line states, 100 if it states none, and what follows its `when`. */
  function ParseHeader(line: string): Result<(int, string), RplError> {
    if "priority " <= line then
      var parts := SplitOnce(line[9..], " when ");
      if parts.None? then Err(InvalidHeader(line))
      else
        var priority := ParseI32(parts.value.0);
        if priority.None? then Err(InvalidInteger(parts.value.0)) else Ok((priority.value, parts.value.1))
    else if "when " <= line then Ok((100, line[5..]))
    else Err(InvalidBody(line))
  }

  function ParseRule(line: string, order: nat): Result<M.Rule, RplError> {
    match ParseHeader(line)
    case Err(e) => Err(e)
    case Ok((priority, body)) =>
      var parts := SplitOnce(body, "->");
      if parts.None? then Err(MissingArrow(line))
      else
        match ParsePredicates(Split(parts.value.0, " and "))
        case Err(e) => Err(e)
        case Ok(predicates) =>
          match ParseAction(Trim(parts.value.1))
          case Err(e) => Err(e)
          case Ok((kind, values)) => Ok(M.Rule(priority, order, predicates, kind, values))
  }

  predicate Skipped(line: string) {
    line == [] || line[0] == '#'
  }

  /** The rules of the lines from number `order` on, each with its line number. */
  function ParseLines(lines: seq<string>, order: nat): Result<seq<M.Rule>, RplError>
    decreases |lines|
  {
    if lines == [] then Ok([])
    else if Skipped(Trim(lines[0])) then ParseLines(lines[1..], order + 1)
    else
      match ParseRule(Trim(lines[0]), order)
      case Err(e) => Err(e)
      case Ok(r) => Prepend([r], ParseLines(lines[1..], order + 1))
  }

  function Prepend(done: seq<M.Rule>, rest: Result<seq<M.Rule>, RplError>): Result<seq<M.Rule>, RplError> {
    match rest
    case Err(e) => Err(e)
    case Ok(rules) => Ok(done + rules)
  }

  lemma PrependStep(done: seq<M.Rule>, r: M.Rule, rest: Result<seq<M.Rule>, RplError>)
    ensures Prepend(done, Prepend([r], rest)) == Prepend(done + [r], rest)
  {
    if rest.Ok? {
      assert done + ([r] + rest.value) == done + [r] + rest.value;
    }
  }

  // ---- The order ------------------------------------------------------------

  const I32_MIN: int := -0x8000_0000

  /** `-priority` on 32 bits, where the least integer is its own negation. */
  function Negated(priority: int): int {
    if priority == I32_MIN then I32_MIN else -priority
  }

  /** `order as i32`. */
  function AsI32(order: nat): int {
    var low := order % 0x1_0000_0000;
    if low < 0x8000_0000 then low else low - 0x1_0000_0000
  }

  /** It is the 32-bit integer with the same low 32 bits. */
  lemma AsI32Is(order: nat)
    ensures -0x8000_0000 <= AsI32(order) <= 0x7FFF_FFFF && (order - AsI32(order)) % 0x1_0000_0000 == 0
  {
    var low, high := order % 0x1_0000_0000, order / 0x1_0000_0000;
    assert order - low == 0x1_0000_0000 * high && order - (low - 0x1_0000_0000) == 0x1_0000_0000 * (high + 1);
    Multiples(high);
    Multiples(high + 1);
  }

  lemma Multiples(k: nat)
    ensures 0x1_0000_0000 * k % 0x1_0000_0000 == 0
  {
  }

  /** The key `parse_compiled_rpl_rules` sorts by. */
  predicate SortsBefore(a: M.Rule, b: M.Rule) {
    Negated(a.priority) < Negated(b.priority)
    || (Negated(a.priority) == Negated(b.priority) && AsI32(a.order) < AsI32(b.order))
  }

  /** What `parse_compiled_rpl_rules` answers. */
  function Compiled(text: string): Result<seq<M.Rule>, RplError> {
    match ParseLines(Lines(text), 0)
    case Err(e) => Err(e)
    case Ok(rules) => Ok(StableSort.Sort(SortsBefore, rules))
  }

  /** `parse_compiled_rpl_rules`. */
  method ParseCompiled(text: string) returns (r: Result<seq<M.Rule>, RplError>)
    ensures r == Compiled(text)
  {
    var lines := Lines(text);
    var rules: seq<M.Rule> := [];
    ghost var goal := ParseLines(lines, 0);
    assert goal.Ok? ==> [] + goal.value == goal.value;
    for order := 0 to |lines|
      invariant Prepend(rules, ParseLines(lines[order..], order)) == goal
    {
      assert lines[order..][0] == lines[order] && lines[order..][1..] == lines[order + 1..];
      var line := Trim(lines[order]);
      if !Skipped(line) {
        var parsed := ParseRule(line, order);
        if parsed.Err? {
          return Err(parsed.error);
        }
        PrependStep(rules, parsed.value, ParseLines(lines[order + 1..], order + 1));
        rules := rules + [parsed.value];
      }
    }
    assert rules + [] == rules;
    r := Ok(StableSort.Sort(SortsBefore, rules));
  }

  /** The order it is meant to give: highest priority first, then the earliest line. */
  predicate Beats(a: M.Rule, b: M.Rule) {
    a.priority > b.priority || (a.priority == b.priority && a.order < b.order)
  }

  /**
   On the lines of a text the two orders agree on a pair exactly when the least
   32-bit priority is not on one side only.
   */
  lemma SortMeantIff(a: M.Rule, b: M.Rule)
    requires I32_MIN <= a.priority < 0x8000_0000 && I32_MIN <= b.priority < 0x8000_0000
    requires a.order < 0x8000_0000 && b.order < 0x8000_0000
    ensures (SortsBefore(a, b) <==> Beats(a, b)) <==> (a.priority == I32_MIN <==> b.priority == I32_MIN)
  {
  }

  lemma SortsIsWeakOrder()
    ensures StableSort.WeakOrder(SortsBefore)
  {
    forall a: M.Rule, b: M.Rule, c: M.Rule
      ensures StableSort.ChainsAt(SortsBefore, a, b, c)
    {
    }
  }

  /** A parsed rule carries its line's number and a 32-bit priority. */
  ghost predicate FromLine(r: M.Rule, from: nat, to: nat) {
    from <= r.order < to && I32_MIN <= r.priority < 0x8000_0000
  }

  lemma HeaderPriority(line: string)
    ensures ParseHeader(line).Ok? ==> I32_MIN <= ParseHeader(line).value.0 < 0x8000_0000
  {
  }

  lemma RuleFromLine(line: string, order: nat)
    ensures ParseRule(line, order).Ok? ==> FromLine(ParseRule(line, order).value, order, order + 1)
  {
    HeaderPriority(line);
  }

  ghost predicate AllFromLines(rules: seq<M.Rule>, from: nat, to: nat) {
    forall k :: 0 <= k < |rules| ==> FromLine(rules[k], from, to)
  }

  lemma FromLinesCons(r: M.Rule, rest: seq<M.Rule>, from: nat, to: nat)
    requires from < to && FromLine(r, from, from + 1) && AllFromLines(rest, from + 1, to)
    ensures AllFromLines([r] + rest, from, to)
  {
  }

  lemma {:induction false} ParsedFromLines(lines: seq<string>, order: nat)
    ensures var parsed := ParseLines(lines, order);
            parsed.Ok? ==> AllFromLines(parsed.value, order, order + |lines|)
    decreases |lines|
  {
    if lines != [] {
      var line := Trim(lines[0]);
      ParsedFromLines(lines[1..], order + 1);
      if !Skipped(line) && ParseLines(lines, order).Ok? {
        RuleFromLine(line, order);
        FromLinesCons(ParseRule(line, order).value, ParseLines(lines[1..], order + 1).value, order, order + |lines|);
      }
    }
  }

  /** A rule that some line states and whose pick is not empty. */
  ghost predicate Candidate<T>(rules: seq<M.Rule>, pick: M.Rule -> Option<T>, r: M.Rule) {
    r in rules && pick(r).Some?
  }

  lemma CompiledRules(text: string)
    requires Compiled(text).Ok?
    ensures StableSort.Ordered(SortsBefore, Compiled(text).value)
    ensures multiset(Compiled(text).value) == multiset(ParseLines(Lines(text), 0).value)
    ensures forall k :: 0 <= k < |Compiled(text).value| ==> FromLine(Compiled(text).value[k], 0, |Lines(text)|)
  {
    var parsed, rules := ParseLines(Lines(text), 0).value, Compiled(text).value;
    SortsIsWeakOrder();
    StableSort.SortOrdered(SortsBefore, parsed);
    ParsedFromLines(Lines(text), 0);
    forall k | 0 <= k < |rules|
      ensures FromLine(rules[k], 0, |Lines(text)|)
    {
      assert rules[k] in multiset(parsed);
      var j :| 0 <= j < |parsed| && parsed[j] == rules[k];
    }
  }

  /**
   On compiled text each slot of the executor is filled from the best line that
   has an answer for it: none with an answer has a higher priority, and none of
   its priority stands earlier - provided the text does not state the least
   32-bit priority, which the sort puts first, beside a higher one.
   */
  lemma SearchPicksBest<T>(text: string, pick: M.Rule -> Option<T>) returns (best: M.Rule)
    requires Compiled(text).Ok? && M.First(Compiled(text).value, pick).Some?
    requires |Lines(text)| <= 0x8000_0000
    requires !Mixed(Compiled(text).value)
    ensures best in ParseLines(Lines(text), 0).value && pick(best) == M.First(Compiled(text).value, pick)
    ensures forall r :: Candidate(ParseLines(Lines(text), 0).value, pick, r) ==> !Beats(r, best)
  {
    var parsed, rules := ParseLines(Lines(text), 0).value, Compiled(text).value;
    CompiledRules(text);
    var k := M.FirstPosition(rules, pick);
    best := rules[k];
    assert best in multiset(parsed);
    forall r | Candidate(parsed, pick, r)
      ensures !Beats(r, best)
    {
      assert r in multiset(rules);
      var j :| 0 <= j < |rules| && rules[j] == r;
      assert j >= k;
      assert FromLine(rules[j], 0, |Lines(text)|) && FromLine(rules[k], 0, |Lines(text)|);
      assert !LeastBelow(rules[j], rules[k]) && !LeastBelow(rules[k], rules[j]);
      SortMeantIff(r, best);
    }
  }

  // ---- The least priority ---------------------------------------------------

  /** The rules stand in the order that was meant. */
  ghost predicate AsMeant(rules: seq<M.Rule>) {
    forall i, j :: 0 <= i < j < |rules| ==> !Beats(rules[j], rules[i])
  }

  /** Some rule states the least 32-bit priority and some other rule a higher one. */
  ghost predicate Mixed(rules: seq<M.Rule>) {
    exists i, j :: 0 <= i < |rules| && 0 <= j < |rules| && LeastBelow(rules[i], rules[j])
  }

  predicate LeastBelow(a: M.Rule, b: M.Rule) {
    a.priority == I32_MIN && b.priority != I32_MIN
  }

  /** Sorted rules of a text that is not mixed are in the order that was meant. */
  lemma SortedAsMeant(rules: seq<M.Rule>, lines: nat)
    requires StableSort.Ordered(SortsBefore, rules) && AllFromLines(rules, 0, lines) && lines <= 0x8000_0000
    requires !Mixed(rules)
    ensures AsMeant(rules)
  {
    forall i, j | 0 <= i < j < |rules|
      ensures !Beats(rules[j], rules[i])
    {
      assert FromLine(rules[i], 0, lines) && FromLine(rules[j], 0, lines);
      assert !LeastBelow(rules[i], rules[j]) && !LeastBelow(rules[j], rules[i]);
      SortMeantIff(rules[j], rules[i]);
    }
  }

  /** Sorted rules of a mixed text are not. */
  lemma SortedNotAsMeant(rules: seq<M.Rule>, lines: nat)
    requires StableSort.Ordered(SortsBefore, rules) && AllFromLines(rules, 0, lines) && lines <= 0x8000_0000
    requires Mixed(rules)
    ensures !AsMeant(rules)
  {
    var i, j :| 0 <= i < |rules| && 0 <= j < |rules| && LeastBelow(rules[i], rules[j]);
    assert FromLine(rules[i], 0, lines) && FromLine(rules[j], 0, lines);
    assert SortsBefore(rules[i], rules[j]) && Beats(rules[j], rules[i]);
  }

  /**
   Compiled text comes out in the order that was meant exactly when it does not
   state the least 32-bit priority beside a higher one.
   */
  lemma AsMeantIff(text: string)
    requires Compiled(text).Ok? && |Lines(text)| <= 0x8000_0000
    ensures AsMeant(Compiled(text).value) <==> !Mixed(Compiled(text).value)
  {
    var rules := Compiled(text).value;
    CompiledRules(text);
    assert AllFromLines(rules, 0, |Lines(text)|);
    if Mixed(rules) {
      SortedNotAsMeant(rules, |Lines(text)|);
    } else {
      SortedAsMeant(rules, |Lines(text)|);
    }
  }

  lemma TrimSpaceBehind(s: string)
    requires Trimmed(s) && s != []
    ensures Trim(s + " ") == s && Trim(" " + s) == s
  {
    assert (s + " ")[..|s|] == s;
    assert TrimEnd(s + " ") == TrimEnd(s) == s;
    assert TrimStart(s + " ") == s + " ";
    TrimPadded(" ", s);
  }

  lemma PriorityHeader(number: string, priority: int, body: string)
    requires Lacks(number, ' ') && ParseI32(number) == Some(priority)
    ensures ParseHeader("priority " + (number + " when " + body)) == Ok((priority, body))
  {
    var rest := number + " when " + body;
    SplitOnceBehind(number, " when ", body);
    assert ("priority " + rest)[9..] == rest;
  }

  lemma PrintLacksSpace(n: int)
    ensures Lacks(PrintInt(n), ' ') && Lacks(PrintInt(n), '\n')
  {
    ParsePrintNat(if n < 0 then -n else n);
  }

  /** A line that is read as one rule. */
  ghost predicate Reads(line: string, order: nat, r: M.Rule) {
    OneLine(line) && Trim(line) == line && !Skipped(line) && ParseRule(line, order) == Ok(r)
  }

  lemma LineReads(line: string, lines: seq<string>, order: nat, r: M.Rule, rest: seq<M.Rule>)
    requires lines != [] && lines[0] == line && Reads(line, order, r) && ParseLines(lines[1..], order + 1) == Ok(rest)
    ensures ParseLines(lines, order) == Ok([r] + rest)
  {
  }

  lemma NoLines(lines: seq<string>, order: nat)
    requires lines == []
    ensures ParseLines(lines, order) == Ok([])
  {
  }

  lemma TwoLinesParse(first: string, second: string, order: nat, r1: M.Rule, r2: M.Rule)
    requires Reads(first, order, r1) && Reads(second, order + 1, r2)
    ensures ParseLines([first, second], order) == Ok([r1] + ([r2] + []))
  {
    var both := [first, second];
    NoLines(both[1..][1..], order + 1 + 1);
    LineReads(second, both[1..], order + 1, r2, []);
    LineReads(first, both, order, r1, [r2] + []);
  }

  lemma CompiledIs(text: string, lines: seq<string>, start: nat, parsed: seq<M.Rule>)
    requires Lines(text) == lines && start == 0 && ParseLines(lines, start) == Ok(parsed)
    ensures Compiled(text) == Ok(StableSort.Sort(SortsBefore, parsed))
  {
  }

  lemma TwoLinesRead(text: string, first: string, second: string, start: nat, r1: M.Rule, r2: M.Rule)
    requires start == 0 && Reads(first, start, r1) && Reads(second, start + 1, r2) && SortsBefore(r2, r1)
    requires Lines(text) == [first, second]
    ensures Compiled(text) == Ok([r2, r1])
  {
    TwoLinesParse(first, second, start, r1, r2);
    assert [r1] + ([r2] + []) == [r1, r2];
    CompiledIs(text, [first, second], start, [r1, r2]);
    SortedPair(r1, r2);
  }

  lemma TwoLines(first: string, second: string)
    requires OneLine(first) && OneLine(second)
    ensures Lines(Unlines([first, second])) == [first, second]
  {
    LinesOfUnlines([first, second]);
    NothingChopped([first, second]);
  }

  lemma SortedPair(first: M.Rule, second: M.Rule)
    requires SortsBefore(second, first)
    ensures StableSort.Sort(SortsBefore, [first, second]) == [second, first]
  {
    assert [first, second][..1] == [first] && [first][..0] == [];
    assert StableSort.Sort(SortsBefore, [first]) == [first];
  }
}

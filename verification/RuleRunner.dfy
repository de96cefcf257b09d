/**
 The two rule runners of src/bin/raman_portable.rs: over the JSON form of the
 rules, and over the binary form.
 */
module RuleRunner {
  import opened Gbc2
  import opened Outcome
  import opened RuleIr
  import opened TextTools
  import GplText
  import ByteCodec

  /** `context_field_value`: the text of a field, if there is such a field. */
  type Context = string -> Option<string>

  datatype Mapping = Mapping(field: string, register: string, scale: int, offset: int)

  datatype Decision = Decision(ruleName: string, priority: int, profile: string, writes: seq<(string, nat)>)

  // ---- Predicates -----------------------------------------------------------

  /** A comparison by operator code; codes above 5 never hold. */
  predicate Compares(floats: Floats, code: nat, current: Bits, target: Bits) {
    if code == 0 then floats.equal(current, target)
    else if code == 1 then !floats.equal(current, target)
    else if code == 2 then floats.atLeast(current, target)
    else if code == 3 then floats.atMost(current, target)
    else if code == 4 then floats.above(current, target)
    else code == 5 && floats.below(current, target)
  }

  predicate ComparesBy(floats: Floats, op: Op, current: Bits, target: Bits) {
    match op
    case Eq => floats.equal(current, target)
    case Ne => !floats.equal(current, target)
    case Ge => floats.atLeast(current, target)
    case Le => floats.atMost(current, target)
    case Gt => floats.above(current, target)
    case Lt => floats.below(current, target)
    case OtherOp(_) => false
  }

  /** `predicate_matches_json`. */
  predicate JsonMatches(floats: Floats, p: RuleIr.Predicate, c: Context) {
    var raw := c(p.field);
    raw.Some? &&
    match p.valueType
    case Num =>
      var current := floats.parse(raw.value);
      current.Some? && p.value.Number? && ComparesBy(floats, p.op, current.value, p.value.bits)
    case Bool =>
      var current := SameIgnoringCase(raw.value, "true");
      p.value.Boolean? && ((p.op.Eq? && current == p.value.truth) || (p.op.Ne? && current != p.value.truth))
    case _ =>
      var target := if p.value.Word? then p.value.text else "";
      (p.op.Eq? && raw.value == target) || (p.op.Ne? && raw.value != target)
  }

  /** `predicate_matches_bin`. */
  predicate BinMatches(floats: Floats, p: BinPredicate, c: Context) {
    var raw := c(p.field);
    raw.Some? &&
    match p.value
    case Num(target) =>
      var current := floats.parse(raw.value);
      current.Some? && Compares(floats, p.op, current.value, target)
    case Bool(target) =>
      var current := SameIgnoringCase(raw.value, "true");
      (p.op == 0 && current == target) || (p.op == 1 && current != target)
    case Str(target) =>
      (p.op == 0 && raw.value == target) || (p.op == 1 && raw.value != target)
  }

  /** On a known operator and a well-typed value the two forms mean the same. */
  lemma PredicateAgrees(floats: Floats, p: RuleIr.Predicate, c: Context)
    requires Consistent(p)
    ensures ToPredicate(p).Some? && (BinMatches(floats, ToPredicate(p).value, c) <==> JsonMatches(floats, p, c))
  {
  }

  ghost predicate SameAnswer(floats: Floats, p: RuleIr.Predicate, c: Context)
    requires ToPredicate(p).Some?
  {
    BinMatches(floats, ToPredicate(p).value, c) <==> JsonMatches(floats, p, c)
  }

  /** The six operators are written by their symbols, and no other text spells one of them. */
  predicate Spelled(op: Op) {
    op.OtherOp? ==> forall k :: 0 <= k < |OPERATORS| ==> op.text != Symbol(OPERATORS[k])
  }

  /**
   Why known operators are asked for: the encoder's default arm writes any other
   one as `==`, so on texts and truth values the two forms then differ in some
   context. The compiler lowers known operators only (`LoweredConsistent`), so it
   never gets there.
   */
  lemma CarriedIff(floats: Floats, p: RuleIr.Predicate)
    requires Spelled(p.op) && TypeFits(p.valueType, p.value) && !p.value.Number?
    ensures (forall c: Context :: SameAnswer(floats, p, c)) <==> !p.op.OtherOp?
  {
    if p.op.OtherOp? {
      var raw := if p.value.Word? then p.value.text else if p.value.truth then "true" else "false";
      var c: Context := (field: string) => Some(raw);
      assert !SameAnswer(floats, p, c);
    } else {
      forall c: Context
        ensures SameAnswer(floats, p, c)
      {
        PredicateAgrees(floats, p, c);
      }
    }
  }

  // ---- Register writes ------------------------------------------------------

  function Clamp32(x: int): int {
    if x < -0x8000_0000 then -0x8000_0000 else if x > 0x7FFF_FFFF then 0x7FFF_FFFF else x
  }

  function Scaled(parsed: int, m: Mapping): nat {
    var transformed := Clamp32(Clamp32(parsed * m.scale) + m.offset);
    if transformed < 0 then 0 else transformed
  }

  function WriteOf(values: map<string, string>, m: Mapping): seq<(string, nat)> {
    if m.field !in values then []
    else
      var parsed := ParseI32(values[m.field]);
      if parsed.None? then [] else [(m.register, Scaled(parsed.value, m))]
  }

  function Writes(values: map<string, string>, mappings: seq<Mapping>): seq<(string, nat)> {
    if mappings == [] then []
    else Writes(values, mappings[..|mappings| - 1]) + WriteOf(values, mappings[|mappings| - 1])
  }

  /** `apply_action_to_writes_with_mappings`. */
  method ApplyAction(values: map<string, string>, mappings: seq<Mapping>) returns (writes: seq<(string, nat)>)
    ensures writes == Writes(values, mappings)
  {
    writes := [];
    for i := 0 to |mappings|
      invariant writes == Writes(values, mappings[..i])
    {
      var m := mappings[i];
      assert mappings[..i + 1][..i] == mappings[..i];
      if m.field in values {
        var parsed := ParseI32(values[m.field]);
        if parsed.Some? {
          writes := writes + [(m.register, Scaled(parsed.value, m))];
        }
      }
    }
    assert mappings[..|mappings|] == mappings;
  }

  /** Every write is a 32-bit register value. */
  lemma {:induction false} WritesFit(values: map<string, string>, mappings: seq<Mapping>, k: nat)
    requires k < |Writes(values, mappings)|
    ensures Writes(values, mappings)[k].1 < 0x8000_0000
    decreases |mappings|
  {
    if k < |Writes(values, mappings[..|mappings| - 1])| {
      WritesFit(values, mappings[..|mappings| - 1], k);
    }
  }

  // ---- Running --------------------------------------------------------------

  ghost predicate JsonRuleMatches(floats: Floats, r: RuleIr.Rule, c: Context) {
    forall k :: 0 <= k < |r.predicates| ==> JsonMatches(floats, r.predicates[k], c)
  }

  ghost predicate BinRuleMatches(floats: Floats, r: LoadedRule, c: Context) {
    forall k :: 0 <= k < |r.predicates| ==> BinMatches(floats, r.predicates[k], c)
  }

  ghost function FirstJson(floats: Floats, rules: seq<RuleIr.Rule>, c: Context): Option<nat> {
    if rules == [] then None
    else
      var init := FirstJson(floats, rules[..|rules| - 1], c);
      if init.Some? then init
      else if JsonRuleMatches(floats, rules[|rules| - 1], c) then Some(|rules| - 1)
      else None
  }

  ghost function FirstBin(floats: Floats, rules: seq<LoadedRule>, c: Context): Option<nat> {
    if rules == [] then None
    else
      var init := FirstBin(floats, rules[..|rules| - 1], c);
      if init.Some? then init
      else if BinRuleMatches(floats, rules[|rules| - 1], c) then Some(|rules| - 1)
      else None
  }

  function Decide(name: string, priority: int, values: map<string, string>, mappings: seq<Mapping>): Decision {
    Decision(name, priority, if "name" in values then values["name"] else "unknown", Writes(values, mappings))
  }

  /** The action values of a JSON rule, by key. */
  function ValuesOf(r: RuleIr.Rule): map<string, string> {
    MapOf(ToPairs(r.values))
  }

  lemma {:induction false} FirstJsonIs(floats: Floats, rules: seq<RuleIr.Rule>, c: Context)
    ensures match FirstJson(floats, rules, c)
            case Some(k) =>
              k < |rules| && JsonRuleMatches(floats, rules[k], c) &&
              forall j :: 0 <= j < k ==> !JsonRuleMatches(floats, rules[j], c)
            case None => forall j :: 0 <= j < |rules| ==> !JsonRuleMatches(floats, rules[j], c)
    decreases |rules|
  {
    if rules != [] {
      FirstJsonIs(floats, rules[..|rules| - 1], c);
    }
  }

  lemma {:induction false} FirstBinIs(floats: Floats, rules: seq<LoadedRule>, c: Context)
    ensures match FirstBin(floats, rules, c)
            case Some(k) =>
              k < |rules| && BinRuleMatches(floats, rules[k], c) &&
              forall j :: 0 <= j < k ==> !BinRuleMatches(floats, rules[j], c)
            case None => forall j :: 0 <= j < |rules| ==> !BinRuleMatches(floats, rules[j], c)
    decreases |rules|
  {
    if rules != [] {
      FirstBinIs(floats, rules[..|rules| - 1], c);
    }
  }

  /** What `run_gbc_json_loaded_with_mappings` answers. */
  ghost function RunJson(floats: Floats, rules: seq<RuleIr.Rule>, mappings: seq<Mapping>, c: Context):
    (r: Option<Decision>)
    ensures r.Some? ==> exists k :: 0 <= k < |rules| && r.value.ruleName == rules[k].name
  {
    FirstJsonIs(floats, rules, c);
    var found := FirstJson(floats, rules, c);
    if found.None? || !rules[found.value].kind.PhyAction? then None
    else
      var r := rules[found.value];
      Some(Decide(r.name, r.priority, ValuesOf(r), mappings))
  }

  /** What `run_gbc_bin_loaded_with_mappings` answers. */
  ghost function RunBin(floats: Floats, rules: seq<LoadedRule>, mappings: seq<Mapping>, c: Context):
    (r: Option<Decision>)
    ensures r.Some? ==> exists k :: 0 <= k < |rules| && r.value.ruleName == rules[k].name
  {
    FirstBinIs(floats, rules, c);
    var found := FirstBin(floats, rules, c);
    if found.None? || rules[found.value].kind != 0 then None
    else
      var r := rules[found.value];
      Some(Decide(r.name, r.priority, r.values, mappings))
  }

  // ---- Both forms decide alike ----------------------------------------------

  lemma RuleAgrees(floats: Floats, r: RuleIr.Rule, c: Context)
    requires RuleConsistent(r) && ToBin(r).Some?
    ensures BinRuleMatches(floats, ToLoaded(ToBin(r).value), c) <==> JsonRuleMatches(floats, r, c)
    ensures ToLoaded(ToBin(r).value).values == ValuesOf(r)
  {
    var bin := ToLoaded(ToBin(r).value);
    forall k | 0 <= k < |r.predicates|
      ensures BinMatches(floats, bin.predicates[k], c) <==> JsonMatches(floats, r.predicates[k], c)
    {
      assert Consistent(r.predicates[k]);
      PredicateAgrees(floats, r.predicates[k], c);
    }
    if BinRuleMatches(floats, bin, c) {
      forall k | 0 <= k < |r.predicates|
        ensures JsonMatches(floats, r.predicates[k], c)
      {
        assert BinMatches(floats, bin.predicates[k], c);
      }
    }
  }

  ghost predicate SameTest(floats: Floats, r: RuleIr.Rule, bin: LoadedRule, c: Context) {
    BinRuleMatches(floats, bin, c) <==> JsonRuleMatches(floats, r, c)
  }

  lemma {:induction false} SameFirst(floats: Floats, rules: seq<RuleIr.Rule>, bins: seq<LoadedRule>, c: Context)
    requires |bins| == |rules| && forall k :: 0 <= k < |rules| ==> SameTest(floats, rules[k], bins[k], c)
    ensures FirstBin(floats, bins, c) == FirstJson(floats, rules, c)
    decreases |rules|
  {
    if rules != [] {
      var n := |rules| - 1;
      SameFirst(floats, rules[..n], bins[..n], c);
      assert SameTest(floats, rules[n], bins[n], c);
    }
  }

  lemma AllSameTest(floats: Floats, rules: seq<RuleIr.Rule>, c: Context)
    requires AllConsistent(rules) && ToBins(rules).Some?
    ensures forall k :: 0 <= k < |rules| ==> SameTest(floats, rules[k], AllLoaded(ToBins(rules).value)[k], c)
  {
    forall k | 0 <= k < |rules|
      ensures SameTest(floats, rules[k], AllLoaded(ToBins(rules).value)[k], c)
    {
      assert RuleConsistent(rules[k]);
      RuleAgrees(floats, rules[k], c);
    }
  }

  lemma RunnersAgreeOn(floats: Floats, rules: seq<RuleIr.Rule>, mappings: seq<Mapping>, c: Context)
    requires AllConsistent(rules) && ToBins(rules).Some?
    ensures RunBin(floats, AllLoaded(ToBins(rules).value), mappings, c) == RunJson(floats, rules, mappings, c)
  {
    AllSameTest(floats, rules, c);
    SameFirst(floats, rules, AllLoaded(ToBins(rules).value), c);
    FirstJsonIs(floats, rules, c);
    var found := FirstJson(floats, rules, c);
    if found.Some? {
      assert RuleConsistent(rules[found.value]);
      RuleAgrees(floats, rules[found.value], c);
    }
  }

  /**
   Compiling to the binary form preserves meaning. Whatever rules the compiler
   lowers, if their binary encoding succeeds, then the file loads, and on every
   context and every register mapping the loaded rules decide exactly as the
   JSON form does.
   */
  lemma BinaryFormPreservesMeaning(
    floats: Floats, u: Utf8, source: seq<GplText.AstRule>, mappings: seq<Mapping>, c: Context)
    requires LawfulUtf8(u) && Lower(floats, source).Done?
    requires Encodable(u, Lower(floats, source).value) && |Lower(floats, source).value| < 0x1_0000_0000
    ensures var ir := Lower(floats, source).value;
            ToBins(ir).Some?
            && var loaded := Load(u, FileOf(u, ToBins(ir).value));
               loaded.Rules? && RunBin(floats, loaded.rules, mappings, c) == RunJson(floats, ir, mappings, c)
  {
    var ir := Lower(floats, source).value;
    LoweredConsistent(floats, source);
    LoadUndoesEncode(u, ir, []);
    var file := FileOf(u, ToBins(ir).value);
    assert file + [] == file;
    RunnersAgreeOn(floats, ir, mappings, c);
  }

  lemma FirstIsBest(floats: Floats, ir: seq<RuleIr.Rule>, c: Context, k: nat)
    requires RuleIr.Ordered(ir) && k < |ir| && JsonRuleMatches(floats, ir[k], c)
    requires forall j :: 0 <= j < k ==> !JsonRuleMatches(floats, ir[j], c)
    ensures forall j :: 0 <= j < |ir| && JsonRuleMatches(floats, ir[j], c) ==> !Precedes(ir[j], ir[k])
  {
    LessIrreflexive(ir[k].name);
  }

  /**
   A decision on lowered rules comes from a matching rule that no matching rule
   precedes: none has a higher priority, and none of its priority a lesser name.
   */
  lemma DecisionIsBest(floats: Floats, source: seq<GplText.AstRule>, mappings: seq<Mapping>, c: Context)
    returns (k: nat)
    requires Lower(floats, source).Done? && RunJson(floats, Lower(floats, source).value, mappings, c).Some?
    ensures var ir := Lower(floats, source).value;
            && k < |ir| && JsonRuleMatches(floats, ir[k], c)
            && RunJson(floats, ir, mappings, c).value.ruleName == ir[k].name
            && forall j :: 0 <= j < |ir| && JsonRuleMatches(floats, ir[j], c) ==> !Precedes(ir[j], ir[k])
  {
    var ir := Lower(floats, source).value;
    LoweredConsistent(floats, source);
    FirstJsonIs(floats, ir, c);
    k := FirstJson(floats, ir, c).value;
    FirstIsBest(floats, ir, c, k);
  }
}

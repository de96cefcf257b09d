/**
 What a lowered rule means to the runners of src/bin/raman_portable.rs: when a
 written condition holds of a context, what a decision consists of, and what is
 written to a register.
 */
module RuleMeaning {
  import opened ByteCodec
  import opened Gbc2
  import opened GplText
  import opened Outcome
  import opened RuleIr
  import opened RuleRunner
  import opened RuleText
  import opened TextTools

  // ---- Conditions -----------------------------------------------------------

  /** Floats that stand for numbers and compare like them. */
  ghost predicate Numbers(floats: Floats, val: Bits -> real) {
    && (forall a, b :: floats.equal(a, b) <==> val(a) == val(b))
    && (forall a, b :: floats.atLeast(a, b) <==> val(a) >= val(b))
    && (forall a, b :: floats.atMost(a, b) <==> val(a) <= val(b))
    && (forall a, b :: floats.above(a, b) <==> val(a) > val(b))
    && (forall a, b :: floats.below(a, b) <==> val(a) < val(b))
  }

  /** The comparison an operator is written for. */
  predicate Holds(symbol: string, x: real, y: real) {
    || (symbol == "==" && x == y) || (symbol == "!=" && x != y)
    || (symbol == ">=" && x >= y) || (symbol == "<=" && x <= y)
    || (symbol == ">" && x > y) || (symbol == "<" && x < y)
  }

  /** The number of a context's field, if the field is there and is a number. */
  ghost predicate FieldIs(floats: Floats, val: Bits -> real, c: Context, field: string, x: real) {
    c(field).Some? && floats.parse(c(field).value).Some? && val(floats.parse(c(field).value).value) == x
  }

  /**
   A condition with a number, in its JSON form as in its binary form, holds of a
   context exactly if the field is there, is a number, and stands to the written
   number as the written operator says.
   */
  lemma NumberCondition(floats: Floats, val: Bits -> real, cond: Condition, bits: Bits, c: Context)
    requires Numbers(floats, val) && Written(floats, cond)
    requires cond.valueType == ValueType.Num && cond.scalar == Number(bits)
    ensures JsonMatches(floats, Meant(cond), c) <==>
              exists x :: FieldIs(floats, val, c, cond.field, x) && Holds(cond.symbol, x, val(bits))
    ensures ToPredicate(Meant(cond)).Some?
    ensures BinMatches(floats, ToPredicate(Meant(cond)).value, c) <==> JsonMatches(floats, Meant(cond), c)
  {
    PredicateAgrees(floats, Meant(cond), c);
    if c(cond.field).Some? && floats.parse(c(cond.field).value).Some? {
      var x := val(floats.parse(c(cond.field).value).value);
      assert FieldIs(floats, val, c, cond.field, x);
    }
  }

  /** A condition with a text holds exactly if it asks for the very text with `==`, or another one with `!=`. */
  lemma TextCondition(floats: Floats, cond: Condition, text: string, c: Context)
    requires Written(floats, cond) && cond.valueType == ValueType.Str && cond.scalar == Value.Word(text)
    ensures JsonMatches(floats, Meant(cond), c) <==>
              c(cond.field).Some? && ((cond.symbol == "==" && c(cond.field).value == text)
                                      || (cond.symbol == "!=" && c(cond.field).value != text))
    ensures ToPredicate(Meant(cond)).Some?
    ensures BinMatches(floats, ToPredicate(Meant(cond)).value, c) <==> JsonMatches(floats, Meant(cond), c)
  {
    PredicateAgrees(floats, Meant(cond), c);
  }

  /** A condition with a truth value takes a field for true exactly if it reads `true` in some case. */
  lemma TruthCondition(floats: Floats, cond: Condition, truth: bool, c: Context)
    requires Written(floats, cond) && cond.valueType == ValueType.Bool && cond.scalar == Boolean(truth)
    ensures JsonMatches(floats, Meant(cond), c) <==>
              c(cond.field).Some? &&
              ((cond.symbol == "==" && SameIgnoringCase(c(cond.field).value, "true") == truth)
               || (cond.symbol == "!=" && SameIgnoringCase(c(cond.field).value, "true") != truth))
    ensures ToPredicate(Meant(cond)).Some?
    ensures BinMatches(floats, ToPredicate(Meant(cond)).value, c) <==> JsonMatches(floats, Meant(cond), c)
  {
    PredicateAgrees(floats, Meant(cond), c);
  }

  /** A rule matches, in either form, exactly if every one of its conditions holds. */
  lemma AllConditions(floats: Floats, r: RuleIr.Rule, loaded: LoadedRule, c: Context)
    ensures JsonRuleMatches(floats, r, c) <==> forall p :: p in r.predicates ==> JsonMatches(floats, p, c)
    ensures BinRuleMatches(floats, loaded, c) <==> forall p :: p in loaded.predicates ==> BinMatches(floats, p, c)
  {
    forall k | 0 <= k < |r.predicates|
      ensures r.predicates[k] in r.predicates
    {
    }
    forall k | 0 <= k < |loaded.predicates|
      ensures loaded.predicates[k] in loaded.predicates
    {
    }
  }

  // ---- Decisions ------------------------------------------------------------

  /** The value that inserting a rule's fields leaves under a key. */
  lemma {:induction false} LastPair(values: seq<Pair>, key: string, k: nat)
    requires k < |values| && values[k].key == key && forall j :: k < j < |values| ==> values[j].key != key
    ensures key in MapOf(values) && MapOf(values)[key] == values[k].value
    decreases |values|
  {
    if k < |values| - 1 {
      LastPair(values[..|values| - 1], key, k);
    }
  }

  lemma {:induction false} NoPair(values: seq<Pair>, key: string)
    requires forall j :: 0 <= j < |values| ==> values[j].key != key
    ensures key !in MapOf(values)
    decreases |values|
  {
    if values != [] {
      NoPair(values[..|values| - 1], key);
    }
  }

  /** A rule's fields are found under their keys, each in its turn. */
  lemma FieldsFound(r: RuleIr.Rule, k: nat)
    requires Sorted(r.values) && k < |r.values|
    ensures r.values[k].0 in ValuesOf(r) && ValuesOf(r)[r.values[k].0] == r.values[k].1
  {
    var key := r.values[k].0;
    forall j | k < j < |r.values|
      ensures ToPairs(r.values)[j].key != key
    {
      LessIrreflexive(key);
    }
    LastPair(ToPairs(r.values), key, k);
  }

  /**
   A decision on lowered rules consists of the chosen rule's name and priority,
   its `name` field or `unknown`, and its register writes; the chosen rule
   matches, and of the matching ones none has a higher priority, nor its priority
   and a lesser name. There is no decision exactly if no rule matches.
   */
  lemma DecisionIs(floats: Floats, source: seq<AstRule>, mappings: seq<Mapping>, c: Context)
    requires Lower(floats, source).Done?
    ensures var ir := Lower(floats, source).value;
            RunJson(floats, ir, mappings, c).None? <==> forall k :: 0 <= k < |ir| ==> !JsonRuleMatches(floats, ir[k], c)
    ensures var ir := Lower(floats, source).value;
            RunJson(floats, ir, mappings, c).Some? ==>
              exists k :: 0 <= k < |ir| && Chosen(floats, ir, c, k)
                          && RunJson(floats, ir, mappings, c).value == DecisionOn(ir[k], mappings)
  {
    var ir := Lower(floats, source).value;
    LoweredConsistent(floats, source);
    FirstJsonIs(floats, ir, c);
    if FirstJson(floats, ir, c).Some? {
      var k := FirstJson(floats, ir, c).value;
      assert RuleConsistent(ir[k]);
      FirstIsChosen(floats, ir, c, k);
      assert RunJson(floats, ir, mappings, c).value == DecisionOn(ir[k], mappings);
    }
  }

  lemma FirstIsChosen(floats: Floats, ir: seq<RuleIr.Rule>, c: Context, k: nat)
    requires Ordered(ir) && k < |ir| && JsonRuleMatches(floats, ir[k], c)
    requires forall j :: 0 <= j < k ==> !JsonRuleMatches(floats, ir[j], c)
    ensures Chosen(floats, ir, c, k)
  {
    forall j | 0 <= j < |ir| && JsonRuleMatches(floats, ir[j], c)
      ensures ir[j].priority <= ir[k].priority
      ensures ir[j].priority == ir[k].priority ==> !Less(ir[j].name, ir[k].name)
    {
      assert j >= k;
      LessIrreflexive(ir[k].name);
    }
  }

  /** No matching rule has a higher priority, nor the same priority and a lesser name. */
  ghost predicate Chosen(floats: Floats, ir: seq<RuleIr.Rule>, c: Context, k: nat)
    requires k < |ir|
  {
    && JsonRuleMatches(floats, ir[k], c)
    && forall j :: 0 <= j < |ir| && JsonRuleMatches(floats, ir[j], c) ==>
         ir[j].priority <= ir[k].priority && (ir[j].priority == ir[k].priority ==> !Less(ir[j].name, ir[k].name))
  }

  function DecisionOn(r: RuleIr.Rule, mappings: seq<Mapping>): Decision {
    Decision(r.name, r.priority, if "name" in ValuesOf(r) then ValuesOf(r)["name"] else "unknown",
             Writes(ValuesOf(r), mappings))
  }

  // ---- Register writes ------------------------------------------------------

  /**
   A mapped field with a 32-bit integer is written as that integer times the
   scale plus the offset, as long as both stay within 32 bits and the result is
   not negative; product and sum saturate, and a negative result becomes zero.
   */
  lemma WritesScaled(values: map<string, string>, m: Mapping, n: int)
    requires -0x8000_0000 <= n <= 0x7FFF_FFFF && m.field in values && values[m.field] == PrintInt(n)
    ensures |WriteOf(values, m)| == 1 && WriteOf(values, m)[0].0 == m.register
    ensures -0x8000_0000 <= n * m.scale <= 0x7FFF_FFFF && 0 <= n * m.scale + m.offset <= 0x7FFF_FFFF ==>
              WriteOf(values, m)[0].1 == n * m.scale + m.offset
    ensures n * m.scale + m.offset < 0 && n * m.scale <= 0x7FFF_FFFF && m.offset <= 0x7FFF_FFFF ==>
              WriteOf(values, m)[0].1 == 0
    ensures n * m.scale > 0x7FFF_FFFF && m.offset >= 0 ==> WriteOf(values, m)[0].1 == 0x7FFF_FFFF
    ensures -0x8000_0000 <= n * m.scale <= 0x7FFF_FFFF && n * m.scale + m.offset > 0x7FFF_FFFF ==>
              WriteOf(values, m)[0].1 == 0x7FFF_FFFF
  {
    ParsePrintInt(n);
    ScaledIs(n * m.scale, n, m);
  }

  lemma ScaledIs(product: int, n: int, m: Mapping)
    requires product == n * m.scale
    ensures Scaled(n, m) == var x := Clamp32(Clamp32(product) + m.offset); if x < 0 then 0 else x
  {
  }

  /** What `f` makes of each item, one after the other. */
  function Collected<A, B>(f: A -> seq<B>, xs: seq<A>): seq<B> {
    if xs == [] then [] else Collected(f, xs[..|xs| - 1]) + f(xs[|xs| - 1])
  }

  lemma {:induction false} CollectedConcat<A, B>(f: A -> seq<B>, a: seq<A>, b: seq<A>)
    ensures Collected(f, a + b) == Collected(f, a) + Collected(f, b)
    decreases |b|
  {
    if b == [] {
      assert a + b == a;
    } else {
      var init, last := b[..|b| - 1], b[|b| - 1];
      CollectedConcat(f, a, init);
      assert (a + b)[..|a + b| - 1] == a + init;
    }
  }

  lemma {:induction false} WritesAre(values: map<string, string>, mappings: seq<Mapping>)
    ensures Writes(values, mappings) == Collected((m: Mapping) => WriteOf(values, m), mappings)
  {
    if mappings != [] {
      WritesAre(values, mappings[..|mappings| - 1]);
    }
  }

  /** Fields are written in the order of the mappings; one that is missing or no integer is skipped. */
  lemma WritesInOrder(values: map<string, string>, before: seq<Mapping>, m: Mapping, after: seq<Mapping>)
    ensures Writes(values, before + [m] + after) == Writes(values, before) + WriteOf(values, m) + Writes(values, after)
    ensures m.field !in values || ParseI32(values[m.field]).None? ==> WriteOf(values, m) == []
  {
    var f := (m: Mapping) => WriteOf(values, m);
    CollectedConcat(f, before + [m], after);
    CollectedConcat(f, before, [m]);
    assert Collected(f, [m]) == f(m);
    WritesAre(values, before + [m] + after);
    WritesAre(values, before);
    WritesAre(values, after);
  }
}

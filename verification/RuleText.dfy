/**
 Conditions as they are written in a rule's `when` text, and what the compiler of
 src/bin/radnet_tools.rs makes of them: the operator that stands there, the field
 in front of it, the scalar behind it, one predicate for each condition.
 */
module RuleText {
  import opened GplText
  import opened Outcome
  import opened RuleIr
  import opened TextTools

  // ---- Operators ------------------------------------------------------------

  /** The six operators and how they are written. */
  predicate Spells(symbol: string, op: Op) {
    || (symbol == "==" && op == Eq) || (symbol == "!=" && op == Ne)
    || (symbol == ">=" && op == Ge) || (symbol == "<=" && op == Le)
    || (symbol == ">" && op == Gt) || (symbol == "<" && op == Lt)
  }

  /** A character that operators are made of. */
  predicate Sign(c: char) {
    c == '=' || c == '!' || c == '<' || c == '>'
  }

  /** A trimmed text without such characters. */
  predicate Plain(text: string) {
    text != [] && Trimmed(text) && forall i :: 0 <= i < |text| ==> !Sign(text[i])
  }

  /** In a plain condition such characters stand in the operator only. */
  lemma SignsAt(field: string, symbol: string, value: string, k: nat)
    requires Plain(field) && Plain(value) && k < |field + symbol + value|
    ensures Sign((field + symbol + value)[k]) ==> |field| <= k < |field| + |symbol|
    ensures |field| <= k < |field| + |symbol| ==> (field + symbol + value)[k] == symbol[k - |field|]
  {
  }

  /** An operator of two characters is found only where both stand. */
  lemma FoundAt(text: string, pattern: string)
    requires |pattern| == 2 && Find(text, pattern).Some?
    ensures var k := Find(text, pattern).value;
            k + 1 < |text| && text[k] == pattern[0] && text[k + 1] == pattern[1]
  {
    var k := Find(text, pattern).value;
    assert text[k..][..2][0] == text[k] && text[k..][..2][1] == text[k + 1];
  }

  lemma FoundIsThere(field: string, symbol: string, value: string, pattern: string)
    requires Plain(field) && Plain(value) && |symbol| <= 2
    requires |pattern| == 2 && Sign(pattern[0]) && Sign(pattern[1])
    requires Find(field + symbol + value, pattern).Some?
    ensures symbol == pattern
  {
    var text := field + symbol + value;
    var k := Find(text, pattern).value;
    FoundAt(text, pattern);
    SignsAt(field, symbol, value, k);
    SignsAt(field, symbol, value, k + 1);
    assert k == |field|;
  }

  lemma NotThere(field: string, symbol: string, value: string, pattern: string)
    requires Plain(field) && Plain(value) && |symbol| <= 2
    requires |pattern| == 2 && Sign(pattern[0]) && Sign(pattern[1]) && symbol != pattern
    ensures Find(field + symbol + value, pattern) == None
  {
    if Find(field + symbol + value, pattern).Some? {
      FoundIsThere(field, symbol, value, pattern);
    }
  }

  /** An operator of one character is found where the operator of the condition starts, or not at all. */
  lemma FoundOne(text: string, pattern: string)
    requires |pattern| == 1 && Find(text, pattern).Some?
    ensures Find(text, pattern).value < |text| && text[Find(text, pattern).value] == pattern[0]
  {
    var k := Find(text, pattern).value;
    assert text[k..][..1][0] == text[k];
  }

  lemma NotThere1(field: string, symbol: string, value: string, pattern: string)
    requires Plain(field) && Plain(value) && |symbol| == 1
    requires |pattern| == 1 && Sign(pattern[0]) && symbol != pattern
    ensures Find(field + symbol + value, pattern) == None
  {
    var at := Find(field + symbol + value, pattern);
    if at.Some? {
      FoundOne(field + symbol + value, pattern);
      SignsAt(field, symbol, value, at.value);
    }
  }

  lemma SplitsThere(field: string, symbol: string, op: Op, value: string, ops: seq<Op>)
    requires Plain(field) && Plain(value) && symbol != [] && Sign(symbol[0]) && Symbol(op) == symbol
    ensures SplitPredicate(field + symbol + value, [op] + ops) == Done((field, op, value))
  {
    SplitOnceBehind(field, symbol, value);
    TrimTrimmed(field);
    TrimTrimmed(value);
  }

  lemma PassesBy(text: string, op: Op, ops: seq<Op>)
    requires Find(text, Symbol(op)) == None
    ensures SplitPredicate(text, [op] + ops) == SplitPredicate(text, ops)
  {
    assert ([op] + ops)[1..] == ops;
  }

  /** Operators of two characters are looked for before those of one. */
  lemma LongOnesFirst()
    ensures |OPERATORS| == 6 && OPERATORS[0] == Eq && OPERATORS[1] == Ne && OPERATORS[2] == Ge
    ensures OPERATORS[3] == Le && OPERATORS[4] == Gt && OPERATORS[5] == Lt
  {
  }

  /** A condition is taken apart at the operator it is written with, whichever of the six it is. */
  lemma OperatorReads(field: string, symbol: string, op: Op, value: string)
    requires Spells(symbol, op) && Plain(field) && Plain(value)
    ensures SplitPredicate(field + symbol + value, OPERATORS) == Done((field, op, value))
  {
    LongOnesFirst();
    var text := field + symbol + value;
    var after1, after2, after3 := [Ne, Ge, Le, Gt, Lt], [Ge, Le, Gt, Lt], [Le, Gt, Lt];
    assert OPERATORS == [Eq] + after1 && after1 == [Ne] + after2 && after2 == [Ge] + after3;
    if symbol == "==" {
      SplitsThere(field, symbol, op, value, after1);
    } else {
      NotThere(field, symbol, value, "==");
      PassesBy(text, Eq, after1);
      if symbol == "!=" {
        SplitsThere(field, symbol, op, value, after2);
      } else {
        NotThere(field, symbol, value, "!=");
        PassesBy(text, Ne, after2);
        OrderReads(field, symbol, op, value);
      }
    }
  }

  lemma OrderReads(field: string, symbol: string, op: Op, value: string)
    requires Spells(symbol, op) && op != Eq && op != Ne && Plain(field) && Plain(value)
    ensures SplitPredicate(field + symbol + value, [Ge, Le, Gt, Lt]) == Done((field, op, value))
  {
    assert [Ge, Le, Gt, Lt] == [Ge] + [Le, Gt, Lt];
    if symbol == ">=" {
      SplitsThere(field, symbol, op, value, [Le, Gt, Lt]);
    } else {
      NotThere(field, symbol, value, ">=");
      PassesBy(field + symbol + value, Ge, [Le, Gt, Lt]);
      LateReads(field, symbol, op, value);
    }
  }

  lemma LateReads(field: string, symbol: string, op: Op, value: string)
    requires Spells(symbol, op) && (op == Le || op == Gt || op == Lt) && Plain(field) && Plain(value)
    ensures SplitPredicate(field + symbol + value, [Le, Gt, Lt]) == Done((field, op, value))
  {
    assert [Le, Gt, Lt] == [Le] + [Gt, Lt];
    if symbol == "<=" {
      SplitsThere(field, symbol, op, value, [Gt, Lt]);
    } else {
      NotThere(field, symbol, value, "<=");
      PassesBy(field + symbol + value, Le, [Gt, Lt]);
      StrictReads(field, symbol, op, value);
    }
  }

  lemma StrictReads(field: string, symbol: string, op: Op, value: string)
    requires Spells(symbol, op) && (op == Gt || op == Lt) && Plain(field) && Plain(value)
    ensures SplitPredicate(field + symbol + value, [Gt, Lt]) == Done((field, op, value))
  {
    assert [Gt, Lt] == [Gt] + [Lt] && [Lt] == [Lt] + [];
    if symbol == ">" {
      SplitsThere(field, symbol, op, value, [Lt]);
    } else {
      NotThere1(field, symbol, value, ">");
      PassesBy(field + symbol + value, Gt, [Lt]);
      SplitsThere(field, symbol, op, value, []);
    }
  }

  // ---- Scalars --------------------------------------------------------------

  /** A quoted value is the text between its quotes, spaces and all. */
  lemma QuotedReads(floats: Floats, inner: string, quote: char)
    requires quote == '"' || quote == '\''
    ensures ParseScalar(floats, [quote] + inner + [quote]) == Done((ValueType.Str, Value.Word(inner)))
  {
    var text := [quote] + inner + [quote];
    TrimTrimmed(text);
    assert text[0] == quote && text[|text| - 1] == quote && text[1..|text| - 1] == inner;
    assert LowerChar(text[0]) == quote;
  }

  /** The two truth values, in any case. */
  lemma TruthReads(floats: Floats, text: string)
    requires Trimmed(text)
    ensures SameIgnoringCase(text, "true") ==> ParseScalar(floats, text) == Done((ValueType.Bool, Boolean(true)))
    ensures SameIgnoringCase(text, "false") ==> ParseScalar(floats, text) == Done((ValueType.Bool, Boolean(false)))
    ensures SameIgnoringCase("TRUE", "true") && SameIgnoringCase("False", "false")
    ensures SameIgnoringCase("FALSE", "false")
  {
    TrimTrimmed(text);
    if SameIgnoringCase(text, "false") {
      assert LowerChar(text[0]) == 'f';
      assert !SameIgnoringCase(text, "true");
    }
  }

  predicate NumberChar(c: char) {
    c == '-' || '0' <= c <= '9'
  }

  /** A text of digits and signs is neither quoted nor a truth value, and has no point. */
  lemma NumberChars(text: string)
    requires text != [] && forall i :: 0 <= i < |text| ==> NumberChar(text[i])
    ensures !Quoted(text, '"') && !Quoted(text, '\'') && '.' !in text && Trimmed(text)
    ensures !SameIgnoringCase(text, "true") && !SameIgnoringCase(text, "false")
  {
    assert NumberChar(text[0]) && LowerChar(text[0]) == text[0];
    assert "true"[0] == 't' && "false"[0] == 'f';
  }

  /** A 64-bit integer is a number. */
  lemma IntegerReads(floats: Floats, n: int)
    requires -0x8000_0000_0000_0000 <= n <= 0x7FFF_FFFF_FFFF_FFFF
    ensures ParseScalar(floats, PrintInt(n)) == Done((ValueType.Num, Number(floats.ofI64(n))))
  {
    ParsePrintInt(n);
    PrintedChars(n);
    NumberChars(PrintInt(n));
    NumberReads(floats, PrintInt(n), n);
  }

  lemma NumberReads(floats: Floats, text: string, n: int)
    requires Trimmed(text) && !Quoted(text, '"') && !Quoted(text, '\'')
    requires !SameIgnoringCase(text, "true") && !SameIgnoringCase(text, "false")
    requires '.' !in text && ParseI64(text) == Some(n)
    ensures ParseScalar(floats, text) == Done((ValueType.Num, Number(floats.ofI64(n))))
  {
    TrimTrimmed(text);
  }

  /** A printed integer can be written into a condition. */
  lemma IntegerPlain(n: int)
    ensures Plain(PrintInt(n)) && Lacks(PrintInt(n), ' ')
  {
    PrintedChars(n);
    NumberChars(PrintInt(n));
  }

  lemma PrintedChars(n: int)
    ensures forall i :: 0 <= i < |PrintInt(n)| ==> NumberChar(PrintInt(n)[i])
  {
    ParsePrintNat(if n < 0 then -n else n);
  }

  /** A value that is neither quoted, a truth value nor a number is the text itself. */
  lemma WordReads(floats: Floats, text: string)
    requires Trimmed(text) && !Quoted(text, '"') && !Quoted(text, '\'')
    requires !SameIgnoringCase(text, "true") && !SameIgnoringCase(text, "false")
    requires '.' !in text && ParseI64(text) == None
    ensures ParseScalar(floats, text) == Done((ValueType.Str, Value.Word(text)))
  {
    TrimTrimmed(text);
  }

  /** With a point a text is a number exactly if it parses as a finite float. */
  lemma PointReads(floats: Floats, text: string)
    requires Trimmed(text) && !Quoted(text, '"') && !Quoted(text, '\'') && '.' in text
    ensures var bits := floats.parse(text);
            ParseScalar(floats, text) == Done(if bits.Some? && floats.finite(bits.value)
                                              then (ValueType.Num, Number(bits.value))
                                              else (ValueType.Str, Value.Word(text)))
  {
    TrimTrimmed(text);
    var k :| 0 <= k < |text| && text[k] == '.';
    assert LowerChar(text[k]) == '.';
    assert !SameIgnoringCase(text, "true") && !SameIgnoringCase(text, "false");
  }

  // ---- Whole conditions -----------------------------------------------------

  /** A condition: field, operator and value, and what its value is read as. */
  datatype Condition = Condition(
    field: string, symbol: string, op: Op, value: string, valueType: ValueType, scalar: Value)

  function TextOf(c: Condition): string {
    c.field + c.symbol + c.value
  }

  function Meant(c: Condition): RuleIr.Predicate {
    RuleIr.Predicate(c.field, c.op, c.valueType, c.scalar)
  }

  /** A condition that can be written without a blank. */
  ghost predicate Written(floats: Floats, c: Condition) {
    && Spells(c.symbol, c.op) && Plain(c.field) && Plain(c.value)
    && Lacks(c.field, ' ') && Lacks(c.value, ' ')
    && ParseScalar(floats, c.value) == Done((c.valueType, c.scalar))
  }

  lemma TextShape(floats: Floats, c: Condition)
    requires Written(floats, c)
    ensures Trimmed(TextOf(c)) && TextOf(c) != [] && Lacks(TextOf(c), ' ')
  {
    var text := TextOf(c);
    assert text[0] == c.field[0] && text[|text| - 1] == c.value[|c.value| - 1];
    assert Lacks(c.symbol, ' ');
  }

  lemma ConditionReads(floats: Floats, c: Condition)
    requires Written(floats, c)
    ensures CompilePredicate(floats, TextOf(c)) == Done(Meant(c))
    ensures Trim(TextOf(c)) == TextOf(c) && TextOf(c) != [] && Lacks(TextOf(c), ' ')
  {
    TextShape(floats, c);
    OperatorReads(c.field, c.symbol, c.op, c.value);
    TrimTrimmed(TextOf(c));
  }

  function Texts(cs: seq<Condition>): seq<string> {
    if cs == [] then [] else [TextOf(cs[0])] + Texts(cs[1..])
  }

  function AllMeant(cs: seq<Condition>): seq<RuleIr.Predicate> {
    if cs == [] then [] else [Meant(cs[0])] + AllMeant(cs[1..])
  }

  ghost predicate AllWritten(floats: Floats, cs: seq<Condition>) {
    forall k :: 0 <= k < |cs| ==> Written(floats, cs[k])
  }

  /** Conditions joined by `and` are told apart again. */
  lemma {:induction false} SplitsAtAnd(floats: Floats, cs: seq<Condition>)
    requires AllWritten(floats, cs) && cs != []
    ensures Split(Join(Texts(cs), " and "), " and ") == Texts(cs)
  {
    var first := TextOf(cs[0]);
    assert Written(floats, cs[0]);
    ConditionReads(floats, cs[0]);
    if |cs| == 1 {
      SplitLacking(first, " and ", ' ');
      assert Texts(cs) == [first];
    } else {
      SplitsAtAnd(floats, cs[1..]);
      SplitOnceBehind(first, " and ", Join(Texts(cs[1..]), " and "));
      assert Texts(cs)[1..] == Texts(cs[1..]) && |Texts(cs)| > 1;
    }
  }

  lemma ChunkReads(floats: Floats, first: string, p: RuleIr.Predicate, rest: seq<string>, ps: seq<RuleIr.Predicate>)
    requires Trim(first) == first && first != []
    requires CompilePredicate(floats, first) == Done(p) && CompileChunks(floats, rest) == Done(ps)
    ensures CompileChunks(floats, [first] + rest) == Done([p] + ps)
  {
    assert ([first] + rest)[1..] == rest;
  }

  lemma {:induction false} ChunksRead(floats: Floats, cs: seq<Condition>)
    requires AllWritten(floats, cs)
    ensures CompileChunks(floats, Texts(cs)) == Done(AllMeant(cs))
  {
    if cs != [] {
      assert Written(floats, cs[0]);
      ConditionReads(floats, cs[0]);
      ChunksRead(floats, cs[1..]);
      ChunkReads(floats, TextOf(cs[0]), Meant(cs[0]), Texts(cs[1..]), AllMeant(cs[1..]));
    }
  }

  /**
   A `when` text of conditions joined by `and` compiles to exactly those
   conditions, in their order: each with its own field, the operator written in
   it and the scalar of its value.
   */
  lemma WhenReads(floats: Floats, cs: seq<Condition>)
    requires AllWritten(floats, cs) && cs != []
    ensures CompileChunks(floats, Split(Join(Texts(cs), " and "), " and ")) == Done(AllMeant(cs))
  {
    SplitsAtAnd(floats, cs);
    ChunksRead(floats, cs);
  }

  /** A rule with such a text is lowered to its name, its priority, those conditions and its fields. */
  lemma RuleReads(floats: Floats, name: string, priority: int, cs: seq<Condition>, phy: Fields)
    requires AllWritten(floats, cs) && cs != []
    ensures CompileRule(floats, AstRule(name, priority, Join(Texts(cs), " and "), phy))
         == Done(RuleIr.Rule(name, priority, AllMeant(cs), PhyAction, phy))
  {
    WhenReads(floats, cs);
  }

  /** Lowered rules carry what the written ones say, each its own, before the sort puts them in order. */
  lemma {:induction false} RulesCarry(floats: Floats, rules: seq<AstRule>)
    requires CompileRules(floats, rules).Done?
    ensures var ir := CompileRules(floats, rules).value;
            |ir| == |rules| && forall k :: 0 <= k < |rules| ==> Carries(floats, rules[k], ir[k])
  {
    if rules != [] {
      RulesCarry(floats, rules[1..]);
      var first, rest := CompileRule(floats, rules[0]), CompileRules(floats, rules[1..]);
      assert CompileRules(floats, rules).value == [first.value] + rest.value;
      assert forall k :: 1 <= k < |rules| ==> rules[k] == rules[1..][k - 1];
    }
  }

  predicate Carries(floats: Floats, written: AstRule, lowered: RuleIr.Rule) {
    && lowered.name == written.name && lowered.priority == written.priority
    && lowered.values == written.phy && lowered.kind == PhyAction
    && CompileChunks(floats, Split(written.when, " and ")) == Done(lowered.predicates)
  }
}

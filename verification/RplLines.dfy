/**
 Lines of compiled rules as they are written, and what the parser of src/raman.rs
 reads in them: the priority, each condition's operator and value, the action and
 its settings.
 */
module RplLines {
  import M = MirrorExecutor
  import opened Outcome
  import opened RplText
  import opened TextTools

  // ---- Finding --------------------------------------------------------------

  /** The pattern stands nowhere before `at`. */
  predicate NotBefore(s: string, pattern: string, at: nat)
    requires at <= |s|
  {
    forall k :: 0 <= k < at ==> !(pattern <= s[k..])
  }

  lemma NotBeforeTail(s: string, pattern: string, at: nat)
    requires 0 < at <= |s| && NotBefore(s, pattern, at)
    ensures !(pattern <= s) && NotBefore(s[1..], pattern, at - 1)
  {
    assert s[0..] == s;
    assert forall k :: 0 <= k < at - 1 ==> s[1..][k..] == s[k + 1..];
  }

  /** A pattern is found where it stands, if it stands nowhere before. */
  lemma {:induction false} FindsFirst(s: string, pattern: string, at: nat)
    requires at <= |s| && pattern <= s[at..] && NotBefore(s, pattern, at)
    ensures Find(s, pattern) == Some(at)
  {
    if at > 0 {
      NotBeforeTail(s, pattern, at);
      assert s[1..][at - 1..] == s[at..];
      FindsFirst(s[1..], pattern, at - 1);
    } else {
      assert s[0..] == s;
    }
  }

  lemma {:induction false} FindsNowhere(s: string, pattern: string)
    requires pattern != [] && NotBefore(s, pattern, |s|)
    ensures Find(s, pattern) == None
  {
    if s != [] {
      NotBeforeTail(s, pattern, |s|);
      FindsNowhere(s[1..], pattern);
    }
  }

  // ---- Conditions -----------------------------------------------------------

  /** A character that operators are made of. */
  predicate Sign(c: char) {
    c == '=' || c == '<' || c == '>'
  }

  /** The five operators of compiled rules. */
  predicate Spelt(op: string) {
    op == ">=" || op == "<=" || op == "==" || op == ">" || op == "<"
  }

  predicate Signless(text: string) {
    forall i :: 0 <= i < |text| ==> !Sign(text[i])
  }

  lemma SignsAt(field: string, op: string, value: string, k: nat)
    requires Signless(field) && Signless(value) && k < |field + op + value|
    ensures Sign((field + op + value)[k]) ==> |field| <= k < |field| + |op|
    ensures |field| <= k < |field| + |op| ==> (field + op + value)[k] == op[k - |field|]
  {
  }

  lemma FoundAt(text: string, pattern: string)
    requires |pattern| == 2 && Find(text, pattern).Some?
    ensures var k := Find(text, pattern).value;
            k + 1 < |text| && text[k] == pattern[0] && text[k + 1] == pattern[1]
  {
    var k := Find(text, pattern).value;
    assert text[k..][..2][0] == text[k] && text[k..][..2][1] == text[k + 1];
  }

  /** An operator of two characters is found only where both stand. */
  lemma TwoFound(field: string, op: string, value: string, pattern: string)
    requires Signless(field) && Signless(value) && |op| <= 2
    requires |pattern| == 2 && Sign(pattern[0]) && Sign(pattern[1])
    requires Find(field + op + value, pattern).Some?
    ensures op == pattern
  {
    var text := field + op + value;
    var k := Find(text, pattern).value;
    FoundAt(text, pattern);
    SignsAt(field, op, value, k);
    SignsAt(field, op, value, k + 1);
    assert k == |field|;
  }

  lemma TwoNotThere(field: string, op: string, value: string, pattern: string)
    requires Signless(field) && Signless(value) && |op| <= 2
    requires |pattern| == 2 && Sign(pattern[0]) && Sign(pattern[1]) && op != pattern
    ensures Find(field + op + value, pattern) == None
  {
    if Find(field + op + value, pattern).Some? {
      TwoFound(field, op, value, pattern);
    }
  }

  lemma OneNotThere(field: string, op: string, value: string, pattern: string)
    requires Signless(field) && Signless(value) && |op| == 1
    requires |pattern| == 1 && Sign(pattern[0]) && op != pattern
    ensures Find(field + op + value, pattern) == None
  {
    var text := field + op + value;
    var at := Find(text, pattern);
    if at.Some? {
      var k := at.value;
      assert text[k..][..1][0] == text[k];
      SignsAt(field, op, value, k);
    }
  }

  lemma PassesBy(token: string, op: string, ops: seq<string>)
    requires Find(token, op) == None
    ensures ParsePredicate(token, [op] + ops) == ParsePredicate(token, ops)
  {
    assert ([op] + ops)[1..] == ops;
  }

  lemma TakenApart(field: string, op: string, value: string, ops: seq<string>)
    requires Signless(field) && op != [] && Sign(op[0]) && Trimmed(field)
    ensures ParsePredicate(field + op + value, [op] + ops) == Ok(M.Predicate(field, op, Unquoted(value)))
  {
    SplitOnceBehind(field, op, value);
    TrimTrimmed(field);
  }

  /** A condition is taken apart at the operator it is written with, whichever of the five it is. */
  lemma OperatorReads(field: string, op: string, value: string)
    requires Spelt(op) && Signless(field) && Signless(value) && Trimmed(field)
    ensures ParsePredicate(field + op + value, RplText.OPERATORS) == Ok(M.Predicate(field, op, Unquoted(value)))
  {
    var token := field + op + value;
    var after1, after2, after3 := ["<=", "==", ">", "<"], ["==", ">", "<"], [">", "<"];
    assert RplText.OPERATORS == [">="] + after1 && after1 == ["<="] + after2 && after2 == ["=="] + after3;
    if op == ">=" {
      TakenApart(field, op, value, after1);
    } else {
      TwoNotThere(field, op, value, ">=");
      PassesBy(token, ">=", after1);
      if op == "<=" {
        TakenApart(field, op, value, after2);
      } else {
        TwoNotThere(field, op, value, "<=");
        PassesBy(token, "<=", after2);
        ShortReads(field, op, value);
      }
    }
  }

  lemma ShortReads(field: string, op: string, value: string)
    requires (op == "==" || op == ">" || op == "<") && Signless(field) && Signless(value) && Trimmed(field)
    ensures ParsePredicate(field + op + value, ["==", ">", "<"]) == Ok(M.Predicate(field, op, Unquoted(value)))
  {
    var token := field + op + value;
    assert ["==", ">", "<"] == ["=="] + [">", "<"] && [">", "<"] == [">"] + ["<"] && ["<"] == ["<"] + [];
    if op == "==" {
      TakenApart(field, op, value, [">", "<"]);
    } else {
      TwoNotThere(field, op, value, "==");
      PassesBy(token, "==", [">", "<"]);
      if op == ">" {
        TakenApart(field, op, value, ["<"]);
      } else {
        OneNotThere(field, op, value, ">");
        PassesBy(token, ">", ["<"]);
        TakenApart(field, op, value, []);
      }
    }
  }

  // ---- Values ---------------------------------------------------------------

  /** A value as it is written: as it is, or between quotes of either kind. */
  predicate ReadsAs(value: string, read: string) {
    && Trimmed(value) && Bare(read, '"') && Bare(read, '\'')
    && (value == read || value == ['"'] + read + ['"'] || value == ['\''] + read + ['\''])
  }

  lemma QuotesOff(read: string, quote: char)
    requires Bare(read, quote)
    ensures TrimMatches([quote] + read + [quote], quote) == read
  {
    var quoted := [quote] + read + [quote];
    assert quoted[1..] == read + [quote];
    assert (read + [quote])[..|read|] == read;
    TrimMatchesBare(read, quote);
    if read == [] {
      assert [quote][1..] == [] && read + [quote] == [quote];
    }
  }

  lemma ValueReads(value: string, read: string)
    requires ReadsAs(value, read)
    ensures Unquoted(value) == read
  {
    TrimTrimmed(value);
    TrimMatchesBare(value, '"');
    TrimMatchesBare(read, '\'');
    TrimMatchesBare(read, '"');
    if value == ['"'] + read + ['"'] {
      QuotesOff(read, '"');
    } else if value == ['\''] + read + ['\''] {
      QuotesOff(read, '\'');
    }
  }

  // ---- Conditions in a row --------------------------------------------------

  datatype Condition = Condition(field: string, op: string, value: string, read: string)

  function TextOf(c: Condition): string {
    c.field + c.op + c.value
  }

  function Meant(c: Condition): M.Predicate {
    M.Predicate(c.field, c.op, c.read)
  }

  /** A condition that can be written without a blank, and without a dash in front of its operator. */
  predicate Written(c: Condition) {
    && Spelt(c.op) && Signless(c.field) && Signless(c.value) && ReadsAs(c.value, c.read)
    && Lacks(c.field, ' ') && Lacks(c.value, ' ') && Lacks(c.field, '-') && Trimmed(c.field)
  }

  lemma TextShape(c: Condition)
    requires Written(c)
    ensures Trimmed(TextOf(c)) && TextOf(c) != [] && Lacks(TextOf(c), ' ')
  {
    var text := TextOf(c);
    assert text[0] == if c.field == [] then c.op[0] else c.field[0];
    assert text[|text| - 1] == if c.value == [] then c.op[|c.op| - 1] else c.value[|c.value| - 1];
  }

  lemma ConditionReads(c: Condition, token: string)
    requires Written(c) && (token == TextOf(c) || token == TextOf(c) + " ")
    ensures ParsePredicate(Trim(token), RplText.OPERATORS) == Ok(Meant(c))
  {
    TextShape(c);
    TrimTrimmed(TextOf(c));
    TrimSpaceBehind(TextOf(c));
    OperatorReads(c.field, c.op, c.value);
    ValueReads(c.value, c.read);
  }

  function Texts(cs: seq<Condition>): seq<string> {
    if cs == [] then [] else [TextOf(cs[0])] + Texts(cs[1..])
  }

  function AllMeant(cs: seq<Condition>): seq<M.Predicate> {
    if cs == [] then [] else [Meant(cs[0])] + AllMeant(cs[1..])
  }

  ghost predicate AllWritten(cs: seq<Condition>) {
    cs != [] && forall k :: 0 <= k < |cs| ==> Written(cs[k])
  }

  /** Conditions joined by `and`, and the blank in front of the arrow. */
  function Conditions(cs: seq<Condition>): string {
    Join(Texts(cs), " and ") + " "
  }

  lemma BlankAtEnd(text: string)
    requires Lacks(text, ' ')
    ensures Find(text + " ", " and ") == None
  {
    var s := text + " ";
    forall k | 0 <= k < |s|
      ensures !(" and " <= s[k..])
    {
      assert s[k..][0] == s[k];
    }
    FindsNowhere(s, " and ");
  }

  lemma Tokens(token: string, p: M.Predicate, rest: seq<string>, ps: seq<M.Predicate>)
    requires ParsePredicate(Trim(token), RplText.OPERATORS) == Ok(p) && ParsePredicates(rest) == Ok(ps)
    ensures ParsePredicates([token] + rest) == Ok([p] + ps)
  {
    assert ([token] + rest)[1..] == rest;
  }

  /** Conditions joined by `and` are read each with its own field, operator and value. */
  lemma {:induction false} ConditionsRead(cs: seq<Condition>)
    requires AllWritten(cs)
    ensures ParsePredicates(Split(Conditions(cs), " and ")) == Ok(AllMeant(cs))
  {
    var first := TextOf(cs[0]);
    assert Written(cs[0]);
    TextShape(cs[0]);
    if |cs| == 1 {
      BlankAtEnd(first);
      assert Texts(cs) == [first] && Conditions(cs) == first + " ";
      ConditionReads(cs[0], first + " ");
      Tokens(first + " ", Meant(cs[0]), [], []);
      assert [first + " "] + [] == [first + " "];
    } else {
      var later := Conditions(cs[1..]);
      assert Conditions(cs) == first + " and " + later by {
        assert Texts(cs)[1..] == Texts(cs[1..]) && |Texts(cs)| > 1;
      }
      SplitOnceBehind(first, " and ", later);
      ConditionsRead(cs[1..]);
      ConditionReads(cs[0], first);
      Tokens(first, Meant(cs[0]), Split(later, " and "), AllMeant(cs[1..]));
    }
  }

  // ---- The arrow ------------------------------------------------------------

  predicate ArrowAt(s: string, k: nat) {
    k + 1 < |s| && s[k] == '-' && s[k + 1] == '>'
  }

  predicate NoArrow(s: string) {
    forall k :: 0 <= k < |s| ==> !ArrowAt(s, k)
  }

  lemma ConditionHasNone(c: Condition)
    requires Written(c)
    ensures NoArrow(TextOf(c))
  {
    var text := TextOf(c);
    forall k | 0 <= k < |text|
      ensures !ArrowAt(text, k)
    {
      assert k < |c.field| ==> text[k] == c.field[k];
      SignsAt(c.field, c.op, c.value, k);
      if k + 1 < |text| {
        SignsAt(c.field, c.op, c.value, k + 1);
      }
    }
  }

  lemma JoinedHasNone(a: string, middle: string, b: string)
    requires NoArrow(a) && NoArrow(middle) && NoArrow(b)
    requires middle != [] && middle[0] == ' ' && middle[|middle| - 1] == ' '
    ensures NoArrow(a + middle + b)
  {
    var s := a + middle + b;
    forall k | 0 <= k < |s|
      ensures !ArrowAt(s, k)
    {
      if k < |a| {
        assert !ArrowAt(a, k);
      } else if k < |a| + |middle| {
        assert !ArrowAt(middle, k - |a|);
      } else {
        assert !ArrowAt(b, k - |a| - |middle|);
      }
    }
  }

  lemma {:induction false} ConditionsHaveNone(cs: seq<Condition>)
    requires AllWritten(cs)
    ensures NoArrow(Conditions(cs))
  {
    assert Written(cs[0]);
    ConditionHasNone(cs[0]);
    if |cs| == 1 {
      assert Texts(cs) == [TextOf(cs[0])];
      JoinedHasNone(TextOf(cs[0]), " ", "");
      assert Conditions(cs) == TextOf(cs[0]) + " " + "";
    } else {
      ConditionsHaveNone(cs[1..]);
      JoinedHasNone(TextOf(cs[0]), " and ", Conditions(cs[1..]));
      assert Conditions(cs) == TextOf(cs[0]) + " and " + Conditions(cs[1..]) by {
        assert Texts(cs)[1..] == Texts(cs[1..]) && |Texts(cs)| > 1;
      }
    }
  }

  lemma ArrowFound(left: string, right: string)
    requires left != [] && left[|left| - 1] == ' ' && NoArrow(left)
    ensures SplitOnce(left + "->" + right, "->") == Some((left, right))
  {
    var s := left + "->" + right;
    forall k | 0 <= k < |left|
      ensures !("->" <= s[k..])
    {
      assert !ArrowAt(left, k);
      assert s[k..][0] == s[k] && s[k..][1] == s[k + 1];
    }
    assert s[|left|..] == "->" + right;
    FindsFirst(s, "->", |left|);
    assert s[..|left|] == left && s[|left| + 2..] == right;
  }

  // ---- Actions --------------------------------------------------------------

  /** The seven kinds of action, and any other text. */
  predicate Names(text: string, kind: M.Kind) {
    || (text == "contract" && kind == M.Contract) || (text == "phy" && kind == M.Phy)
    || (text == "transport" && kind == M.Transport) || (text == "ris" && kind == M.Ris)
    || (text == "verify" && kind == M.Verify) || (text == "hold" && kind == M.Hold)
    || (text == "cooldown" && kind == M.Cooldown)
    || (kind == M.Unknown(text)
        && text !in {"contract", "phy", "transport", "ris", "verify", "hold", "cooldown"})
  }

  lemma KindReads(text: string, kind: M.Kind)
    requires Names(text, kind)
    ensures KindOf(text) == kind
  {
  }

  /** One setting of an action: a key, and a value as it is written and as it is read. */
  datatype Setting = Setting(key: string, value: string, read: string)

  predicate Settable(s: Setting) {
    && Trimmed(s.key) && Lacks(s.key, '=') && Lacks(s.key, ',') && Lacks(s.value, ',') && ReadsAs(s.value, s.read)
  }

  function SettingText(s: Setting): string {
    s.key + "=" + s.value
  }

  function Settings(ss: seq<Setting>): string {
    if ss == [] then []
    else if |ss| == 1 then SettingText(ss[0])
    else SettingText(ss[0]) + "," + Settings(ss[1..])
  }

  function ReadSettings(ss: seq<Setting>): M.Values {
    if ss == [] then [] else [(ss[0].key, ss[0].read)] + ReadSettings(ss[1..])
  }

  ghost predicate AllSettable(ss: seq<Setting>) {
    forall k :: 0 <= k < |ss| ==> Settable(ss[k])
  }

  lemma PairReads(s: Setting, rest: seq<string>, values: M.Values)
    requires Settable(s) && ParsePairs(rest) == Ok(values)
    ensures ParsePairs([SettingText(s)] + rest) == Ok([(s.key, s.read)] + values)
  {
    SplitOnceAt(s.key, '=', s.value);
    assert s.key + ['='] + s.value == SettingText(s);
    TrimTrimmed(s.key);
    ValueReads(s.value, s.read);
    assert ([SettingText(s)] + rest)[1..] == rest;
  }

  lemma {:induction false} SettingsRead(ss: seq<Setting>)
    requires AllSettable(ss) && ss != []
    ensures ParsePairs(Split(Settings(ss), ",")) == Ok(ReadSettings(ss))
  {
    var first := SettingText(ss[0]);
    assert Settable(ss[0]);
    if |ss| == 1 {
      SplitLacking(first, ",", ',');
      PairReads(ss[0], [], []);
      assert [first] + [] == [first];
    } else {
      SplitOnceAt(first, ',', Settings(ss[1..]));
      SettingsRead(ss[1..]);
      PairReads(ss[0], Split(Settings(ss[1..]), ","), ReadSettings(ss[1..]));
    }
  }

  lemma {:induction false} SettingsShape(ss: seq<Setting>)
    requires AllSettable(ss) && ss != []
    ensures Settings(ss) != [] && !Space(Settings(ss)[|Settings(ss)| - 1])
  {
    var s := ss[0];
    assert Settable(s);
    if |ss| > 1 {
      SettingsShape(ss[1..]);
    } else {
      assert Settings(ss)[|Settings(ss)| - 1] == if s.value == [] then '=' else s.value[|s.value| - 1];
    }
  }

  lemma PayloadReads(ss: seq<Setting>)
    requires AllSettable(ss)
    ensures ss != [] ==> Trim(Settings(ss)) != [] && ParsePairs(Split(Settings(ss), ",")) == Ok(ReadSettings(ss))
  {
    if ss != [] {
      SettingsShape(ss);
      TrimSome(Settings(ss));
      SettingsRead(ss);
    }
  }

  lemma ActionOf(name: string, payload: string, values: M.Values)
    requires Trimmed(name) && Lacks(name, '(')
    requires if Trim(payload) == [] then values == [] else ParsePairs(Split(payload, ",")) == Ok(values)
    ensures ParseAction(name + "(" + (payload + ")")) == Ok((KindOf(name), values))
  {
    SplitOnceAt(name, '(', payload + ")");
    assert name + ['('] + (payload + ")") == name + "(" + (payload + ")");
    assert (payload + ")")[..|payload|] == payload;
    TrimTrimmed(name);
  }

  /** An action with its settings, in their order. */
  lemma ActionReads(name: string, kind: M.Kind, ss: seq<Setting>)
    requires Names(name, kind) && Trimmed(name) && Lacks(name, '(') && AllSettable(ss)
    ensures ParseAction(name + "(" + (Settings(ss) + ")")) == Ok((kind, ReadSettings(ss)))
  {
    KindReads(name, kind);
    PayloadReads(ss);
    ActionOf(name, Settings(ss), ReadSettings(ss));
  }

  // ---- Lines ----------------------------------------------------------------

  /** What a line starts with: a priority, or nothing. */
  function HeaderText(priority: Option<int>, body: string): string {
    match priority
    case Some(n) => "priority " + (PrintInt(n) + " when " + body)
    case None => "when " + body
  }

  lemma HeaderReadsAs(priority: Option<int>, body: string)
    requires priority.Some? ==> -0x8000_0000 <= priority.value <= 0x7FFF_FFFF
    ensures ParseHeader(HeaderText(priority, body)) == Ok((if priority.Some? then priority.value else 100, body))
  {
    match priority
    case Some(n) =>
      ParsePrintI32(n);
      PrintLacksSpace(n);
      PriorityHeader(PrintInt(n), n, body);
    case None =>
      assert ("when " + body)[0] == 'w' && "priority "[0] == 'p';
      assert ("when " + body)[5..] == body;
  }

  function ActionText(name: string, ss: seq<Setting>): string {
    name + "(" + (Settings(ss) + ")")
  }

  function BodyText(cs: seq<Condition>, name: string, ss: seq<Setting>): string {
    Conditions(cs) + "->" + (" " + ActionText(name, ss))
  }

  lemma BodySplits(cs: seq<Condition>, name: string, ss: seq<Setting>)
    requires AllWritten(cs) && Trimmed(name)
    ensures SplitOnce(BodyText(cs, name, ss), "->") == Some((Conditions(cs), " " + ActionText(name, ss)))
    ensures Trim(" " + ActionText(name, ss)) == ActionText(name, ss)
  {
    ConditionsHaveNone(cs);
    ArrowFound(Conditions(cs), " " + ActionText(name, ss));
    var action := ActionText(name, ss);
    assert action[0] == if name == [] then '(' else name[0];
    assert action[|action| - 1] == ')';
    TrimSpaceBehind(action);
  }

  /**
   A written line is read as the rule it states: its priority, or 100 if it states
   none; its conditions in their order, each with its own field, operator and
   value; the kind of its action, and the settings in their order.
   */
  lemma LineReadsAs(priority: Option<int>, cs: seq<Condition>, name: string, kind: M.Kind, ss: seq<Setting>, order: nat)
    requires priority.Some? ==> -0x8000_0000 <= priority.value <= 0x7FFF_FFFF
    requires AllWritten(cs) && AllSettable(ss) && Names(name, kind) && Trimmed(name) && Lacks(name, '(')
    ensures ParseRule(HeaderText(priority, BodyText(cs, name, ss)), order) ==
            Ok(M.Rule(if priority.Some? then priority.value else 100, order, AllMeant(cs), kind, ReadSettings(ss)))
  {
    HeaderReadsAs(priority, BodyText(cs, name, ss));
    BodySplits(cs, name, ss);
    ConditionsRead(cs);
    ActionReads(name, kind, ss);
  }

  /** A blank line or a comment states nothing, but it is counted. */
  lemma CommentsCount(lines: seq<string>, order: nat)
    requires lines != [] && (Trim(lines[0]) == [] || Trim(lines[0])[0] == '#')
    ensures ParseLines(lines, order) == ParseLines(lines[1..], order + 1)
  {
  }

  // ---- Text that is not a rule ----------------------------------------------

  /** Which complaint a line gets that is not written so: the first that applies. */
  lemma FaultIs(line: string, order: nat)
    ensures !("priority " <= line) && !("when " <= line) ==> ParseRule(line, order) == Err(InvalidBody(line))
    ensures "priority " <= line && Find(line[9..], " when ") == None ==>
              ParseRule(line, order) == Err(InvalidHeader(line))
    ensures "priority " <= line && Find(line[9..], " when ").Some? ==>
              var number := line[9..][..Find(line[9..], " when ").value];
              ParseI32(number) == None ==> ParseRule(line, order) == Err(InvalidInteger(number))
    ensures "when " <= line && Find(line[5..], "->") == None ==> ParseRule(line, order) == Err(MissingArrow(line))
  {
    if "when " <= line {
      assert line[0] == 'w' && "priority "[0] == 'p';
    }
  }

  lemma ActionFaultIs(raw: string)
    ensures Find(raw, "(") == None ==> ParseAction(raw) == Err(InvalidAction(raw))
    ensures Find(raw, "(").Some? && raw[|raw| - 1] != ')' ==> ParseAction(raw) == Err(InvalidPayload(raw))
  {
    var at := Find(raw, "(");
    if at.Some? && EndsWith(raw[at.value + 1..], ")") {
      var behind := raw[at.value + 1..];
      assert behind[|behind| - 1..][0] == raw[|raw| - 1];
    }
  }

  // ---- The least priority ---------------------------------------------------

  /** A line that states its priority. */
  function LineText(priority: int, cs: seq<Condition>, name: string, ss: seq<Setting>): string {
    HeaderText(Some(priority), BodyText(cs, name, ss))
  }

  lemma LineShape(priority: int, cs: seq<Condition>, name: string, ss: seq<Setting>)
    ensures var line := LineText(priority, cs, name, ss); Trim(line) == line && !Skipped(line)
  {
    var line := LineText(priority, cs, name, ss);
    assert line[0] == 'p' && line[|line| - 1] == ')';
    TrimTrimmed(line);
  }

  lemma LineIsRead(priority: int, cs: seq<Condition>, name: string, kind: M.Kind, ss: seq<Setting>, order: nat)
    requires -0x8000_0000 <= priority <= 0x7FFF_FFFF && OneLine(LineText(priority, cs, name, ss))
    requires AllWritten(cs) && AllSettable(ss) && Names(name, kind) && Trimmed(name) && Lacks(name, '(')
    ensures Reads(LineText(priority, cs, name, ss), order,
                  M.Rule(priority, order, AllMeant(cs), kind, ReadSettings(ss)))
  {
    LineShape(priority, cs, name, ss);
    LineReadsAs(Some(priority), cs, name, kind, ss, order);
  }

  lemma TwoReadLines(text: string, first: string, second: string, start: nat, r1: M.Rule, r2: M.Rule)
    requires start == 0 && Reads(first, start, r1) && Reads(second, start + 1, r2) && SortsBefore(r2, r1)
    requires text == Unlines([first, second])
    ensures Compiled(text) == Ok([r2, r1])
  {
    TwoLines(first, second);
    TwoLinesRead(text, first, second, start, r1, r2);
  }

  lemma LeastSortsFirst(priority: int, least: int, cs: seq<Condition>, name: string, kind: M.Kind, ss: seq<Setting>,
                        text: string, start: nat)
    requires -0x8000_0000 == least < priority <= 0x7FFF_FFFF && start == 0
    requires AllWritten(cs) && AllSettable(ss) && Names(name, kind) && Trimmed(name) && Lacks(name, '(')
    requires OneLine(LineText(priority, cs, name, ss)) && OneLine(LineText(least, cs, name, ss))
    requires text == Unlines([LineText(priority, cs, name, ss), LineText(least, cs, name, ss)])
    ensures Compiled(text) == Ok([M.Rule(least, start + 1, AllMeant(cs), kind, ReadSettings(ss)),
                                  M.Rule(priority, start, AllMeant(cs), kind, ReadSettings(ss))])
  {
    LineIsRead(priority, cs, name, kind, ss, start);
    LineIsRead(least, cs, name, kind, ss, start + 1);
    TwoReadLines(text, LineText(priority, cs, name, ss), LineText(least, cs, name, ss), start,
                 M.Rule(priority, start, AllMeant(cs), kind, ReadSettings(ss)),
                 M.Rule(least, start + 1, AllMeant(cs), kind, ReadSettings(ss)));
  }

  /**
   Two lines with the same conditions and action, the second of which states the
   least 32-bit priority: it comes first all the same, whatever priority the first
   line states.
   */
  lemma LeastPriorityFirst(
    priority: int, least: int, cs: seq<Condition>, name: string, kind: M.Kind, ss: seq<Setting>, text: string)
    requires -0x8000_0000 == least < priority <= 0x7FFF_FFFF
    requires AllWritten(cs) && AllSettable(ss) && Names(name, kind) && Trimmed(name) && Lacks(name, '(')
    requires OneLine(LineText(priority, cs, name, ss)) && OneLine(LineText(least, cs, name, ss))
    requires text == Unlines([LineText(priority, cs, name, ss), LineText(least, cs, name, ss)])
    ensures Compiled(text).Ok? && |Compiled(text).value| == 2
    ensures Compiled(text).value[0].priority == least && Compiled(text).value[1].priority == priority
  {
    LeastSortsFirst(priority, least, cs, name, kind, ss, text, 0);
  }
}

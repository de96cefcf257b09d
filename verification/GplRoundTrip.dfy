/** Printing rules and parsing the text again: what survives of src/bin/radnet_tools.rs's rule language. */
module GplRoundTrip {
  import opened GplText
  import opened Outcome
  import opened TextTools

  predicate FieldOk(f: (string, string)) {
    && Trimmed(f.0) && Lacks(f.0, ',') && Lacks(f.0, '=') && Lacks(f.0, '\n')
    && Lacks(f.1, ',') && Lacks(f.1, '\n')
  }

  /** A rule the printed form can carry, up to the ends of its values. */
  ghost predicate WellFormed(r: AstRule) {
    && -0x8000_0000 <= r.priority < 0x8000_0000
    && Trimmed(r.name) && Lacks(r.name, '\n')
    && Trimmed(r.when) && r.when != [] && Lacks(r.when, '\n')
    && r.phy != [] && Sorted(r.phy) && forall i :: 0 <= i < |r.phy| ==> FieldOk(r.phy[i])
  }

  /** What a printed value is read as. */
  function SettledValue(v: string): string {
    TrimMatches(Trim(v), '"')
  }

  function SettledField(f: (string, string)): (string, string) {
    (f.0, SettledValue(f.1))
  }

  function SettledFields(phy: Fields): (r: Fields)
    ensures |r| == |phy|
  {
    if phy == [] then [] else [SettledField(phy[0])] + SettledFields(phy[1..])
  }

  function SettledRule(r: AstRule): AstRule {
    r.(phy := SettledFields(r.phy))
  }

  function Settled(rules: seq<AstRule>): (r: seq<AstRule>)
    ensures |r| == |rules|
  {
    if rules == [] then [] else [SettledRule(rules[0])] + Settled(rules[1..])
  }

  ghost predicate AllWellFormed(rules: seq<AstRule>) {
    forall i :: 0 <= i < |rules| ==> WellFormed(rules[i])
  }

  lemma TwoSpaces(s: string)
    requires Trimmed(s)
    ensures Trim("  " + s) == s && Trim(" " + s) == s && Trim(s) == s
  {
    TrimPadded("  ", s);
    TrimPadded(" ", s);
    TrimTrimmed(s);
  }

  lemma {:induction false} TrimEndAfter(key: string, v: string)
    ensures TrimEnd(key + "=" + v) == key + ['='] + TrimEnd(v)
  {
    var text := key + "=" + v;
    if v != [] && Space(v[|v| - 1]) {
      TrimEndAfter(key, v[..|v| - 1]);
      assert text[..|text| - 1] == key + "=" + v[..|v| - 1];
    } else {
      assert text == key + ['='] + v;
    }
  }

  /** Trimming a field leaves its key alone and cuts the value's right end. */
  lemma TrimAfterKey(key: string, v: string)
    requires Trimmed(key)
    ensures Trim(key + "=" + v) == key + ['='] + TrimEnd(v)
  {
    var text := key + "=" + v;
    assert text[0] == if key == [] then '=' else key[0];
    TrimEndAfter(key, v);
  }

  lemma TrimBlank(s: string)
    ensures Trim(" " + s) == Trim(s)
  {
    assert (" " + s)[1..] == s;
  }

  lemma {:induction false} TrimEndTail(v: string)
    requires v != [] && Space(v[0])
    ensures TrimEnd(v) == if TrimEnd(v[1..]) == [] then [] else [v[0]] + TrimEnd(v[1..])
    decreases |v|
  {
    if |v| > 1 && Space(v[|v| - 1]) {
      TrimEndTail(v[..|v| - 1]);
      assert v[..|v| - 1][1..] == v[1..][..|v| - 2];
    }
  }

  lemma {:induction false} TrimOfEnd(v: string)
    ensures Trim(TrimEnd(v)) == Trim(v)
  {
    TrimEndKeepsStart(v);
    if v != [] && Space(v[0]) {
      TrimOfEnd(v[1..]);
      TrimEndTail(v);
      assert TrimEnd(v) != [] ==> TrimEnd(v)[1..] == TrimEnd(v[1..]);
    }
  }

  /** A printed field reads back up to the ends of its value, with or without a blank in front of it. */
  lemma FieldReads(acc: Fields, f: (string, string), pad: bool)
    requires FieldOk(f)
    requires forall i :: 0 <= i < |acc| ==> Less(acc[i].0, f.0)
    ensures AddField(acc, Padded(pad, FieldText(f))) == Ok(acc + [SettledField(f)])
  {
    TrimAfterKey(f.0, f.1);
    TrimBlank(FieldText(f));
    SplitOnceAt(f.0, '=', TrimEnd(f.1));
    TrimTrimmed(f.0);
    TrimOfEnd(f.1);
    InsertLast(acc, f.0, SettledValue(f.1));
  }

  lemma FieldTextPlain(f: (string, string))
    requires FieldOk(f)
    ensures Lacks(FieldText(f), ',') && Lacks(FieldText(f), '\n')
    ensures Lacks(" " + FieldText(f), ',')
  {
  }

  ghost predicate AllOk(phy: Fields) {
    forall i :: 0 <= i < |phy| ==> FieldOk(phy[i])
  }

  function Padded(pad: bool, s: string): string {
    if pad then " " + s else s
  }

  lemma PhyTextSplits(phy: Fields, pad: bool)
    requires |phy| > 1
    ensures Padded(pad, PhyText(phy)) == Padded(pad, FieldText(phy[0])) + [','] + Padded(true, PhyText(phy[1..]))
  {
    CommaRegroup(FieldText(phy[0]), PhyText(phy[1..]));
  }

  lemma CommaRegroup(a: string, b: string)
    ensures a + ", " + b == a + [','] + (" " + b)
    ensures " " + (a + ", " + b) == (" " + a) + [','] + (" " + b)
  {
    assert ", " == [','] + " ";
    assert a + ([','] + " ") + b == a + [','] + (" " + b);
    assert " " + (a + [','] + (" " + b)) == (" " + a) + [','] + (" " + b);
  }

  lemma {:induction false} PhyReads(acc: Fields, phy: Fields, pad: bool)
    requires phy != [] && Sorted(acc + phy) && AllOk(phy)
    ensures AddFields(acc, Split(Padded(pad, PhyText(phy)), ",")) == Ok(acc + SettledFields(phy))
    decreases |phy|
  {
    AccBelow(acc, phy);
    FieldReads(acc, phy[0], pad);
    var first := SettledField(phy[0]);
    if |phy| == 1 {
      assert phy == [phy[0]];
      assert SettledFields(phy) == [first];
      OnePart(acc, phy[0], pad);
    } else {
      SettledTail(acc, phy);
      KeysSorted(acc, phy[0], first, phy[1..]);
      PhyReads(acc + [first], phy[1..], true);
      PhyTextSplits(phy, pad);
      MoreParts(acc, phy[0], pad, Padded(true, PhyText(phy[1..])));
    }
  }

  lemma SettledTail(acc: Fields, phy: Fields)
    requires phy != []
    ensures acc + [SettledField(phy[0])] + SettledFields(phy[1..]) == acc + SettledFields(phy)
    ensures phy == [phy[0]] + phy[1..]
  {
    Regrouped(acc, [SettledField(phy[0])], SettledFields(phy[1..]));
  }

  lemma Regrouped(a: Fields, b: Fields, c: Fields)
    ensures a + b + c == a + (b + c)
  {
  }

  /** Order is a matter of keys alone. */
  lemma KeysSorted(acc: Fields, f: (string, string), f': (string, string), rest: Fields)
    requires Sorted(acc + ([f] + rest)) && f.0 == f'.0
    ensures Sorted(acc + [f'] + rest)
  {
    var before, after := acc + ([f] + rest), acc + [f'] + rest;
    assert forall i :: 0 <= i < |after| ==> after[i].0 == before[i].0;
  }

  lemma AccBelow(acc: Fields, phy: Fields)
    requires phy != [] && Sorted(acc + phy)
    ensures forall i :: 0 <= i < |acc| ==> Less(acc[i].0, phy[0].0)
  {
    forall i | 0 <= i < |acc|
      ensures Less(acc[i].0, phy[0].0)
    {
      assert (acc + phy)[i] == acc[i] && (acc + phy)[|acc|] == phy[0];
    }
  }

  lemma OnePart(acc: Fields, f: (string, string), pad: bool)
    requires FieldOk(f)
    ensures AddFields(acc, Split(Padded(pad, FieldText(f)), ",")) == AddField(acc, Padded(pad, FieldText(f)))
  {
    var text := Padded(pad, FieldText(f));
    FieldTextPlain(f);
    FindNowhere(text, ',');
    assert [text][1..] == [];
    if AddField(acc, text).Ok? {
      assert AddFields(AddField(acc, text).value, []) == AddField(acc, text);
    }
  }

  lemma MoreParts(acc: Fields, f: (string, string), pad: bool, rest: string)
    requires FieldOk(f) && AddField(acc, Padded(pad, FieldText(f))).Ok?
    ensures AddFields(acc, Split(Padded(pad, FieldText(f)) + [','] + rest, ",")) ==
            AddFields(AddField(acc, Padded(pad, FieldText(f))).value, Split(rest, ","))
  {
    var first := Padded(pad, FieldText(f));
    FieldTextPlain(f);
    SplitOnceAt(first, ',', rest);
    assert ([first] + Split(rest, ","))[1..] == Split(rest, ",");
  }

  // ---- Lines of a printed list ----------------------------------------------

  /** The lines of the rules to come, starting at a header. */
  function Tail(rules: seq<AstRule>): seq<string>
    decreases |rules|, 0
  {
    if rules == [] then [] else [HeaderLine(rules[0])] + (StatementLines(rules[0]) + LinesFrom(rules[1..]))
  }

  /** The same with the blank line in front of each rule. */
  function LinesFrom(rules: seq<AstRule>): seq<string>
    decreases |rules|, 1
  {
    if rules == [] then [] else [""] + Tail(rules)
  }

  lemma LinesRegroup(a: seq<string>, b: seq<string>, c: seq<string>, d: seq<string>, e: seq<string>)
    ensures a + b + (c + d) + e == a + (b + (c + (d + e)))
  {
    assert a + b + (c + d) == a + (b + (c + d));
    assert b + (c + d) + e == b + (c + (d + e));
  }

  lemma {:induction false} AppendRulesAre(head: seq<string>, rules: seq<AstRule>)
    ensures AppendRules(head + [""], rules) == head + LinesFrom(rules) + [""]
    decreases |rules|
  {
    if rules == [] {
      assert head + [] == head;
    } else {
      var r := rules[0];
      AppendRulesAre(head + [""] + RuleLines(r), rules[1..]);
      LinesRegroup(head, [""], [HeaderLine(r)], StatementLines(r), LinesFrom(rules[1..]));
    }
  }

  lemma AllLinesAre(rules: seq<AstRule>)
    ensures AllLines(rules) == [HEADER] + LinesFrom(rules) + [""]
  {
    AppendRulesAre([HEADER], rules);
    assert [HEADER] + [""] == [HEADER, ""];
  }

  lemma {:induction false} JoinIsUnlines(lines: seq<string>)
    ensures Join(lines + [""], "\n") == Unlines(lines)
  {
    if lines == [] {
      assert lines + [""] == [""];
    } else {
      JoinIsUnlines(lines[1..]);
      assert (lines + [""])[1..] == lines[1..] + [""];
    }
  }

  predicate EndsPlainly(line: string) {
    line != [] && line[|line| - 1] != '\n'
  }

  /** A text that ends in one newline is left as it is. */
  lemma NothingPopped(text: string, start: string, last: string)
    requires EndsPlainly(last) && text == start + last + "\n"
    ensures PopBlank(text) == text && EndsWith(text, "\n")
  {
    assert text[|text| - 2..] == [last[|last| - 1], '\n'];
    assert text[|text| - 1..] == "\n";
  }

  lemma {:induction false} PhyTextPlain(phy: Fields)
    requires phy != [] && AllOk(phy)
    ensures PhyText(phy) != [] && !Space(PhyText(phy)[0]) && Lacks(PhyText(phy), '\n')
    decreases |phy|
  {
    FieldTextPlain(phy[0]);
    if |phy| > 1 {
      PhyTextPlain(phy[1..]);
    }
  }

  /** The fields, the last of them without the blanks at its end. */
  function CutLast(phy: Fields): (r: Fields)
    requires phy != []
    ensures r != []
  {
    if |phy| == 1 then [(phy[0].0, TrimEnd(phy[0].1))] else [phy[0]] + CutLast(phy[1..])
  }

  lemma {:induction false} TrimEndSkips(a: string, b: string)
    requires TrimEnd(b) != []
    ensures TrimEnd(a + b) == a + TrimEnd(b)
  {
    if b != [] && Space(b[|b| - 1]) {
      TrimEndSkips(a, b[..|b| - 1]);
      assert (a + b)[..|a + b| - 1] == a + b[..|b| - 1];
    }
  }

  lemma {:induction false} PhyTextCut(phy: Fields)
    requires phy != []
    ensures TrimEnd(PhyText(phy)) == PhyText(CutLast(phy)) && TrimEnd(PhyText(phy)) != []
    decreases |phy|
  {
    if |phy| == 1 {
      TrimEndAfter(phy[0].0, phy[0].1);
    } else {
      PhyTextCut(phy[1..]);
      TrimEndSkips(FieldText(phy[0]) + ", ", PhyText(phy[1..]));
      assert CutLast(phy)[1..] == CutLast(phy[1..]);
    }
  }

  /** Cutting the last field leaves what the fields are read as, and their keys. */
  lemma {:induction false} CutLastReads(phy: Fields)
    requires phy != [] && AllOk(phy)
    ensures AllOk(CutLast(phy)) && SettledFields(CutLast(phy)) == SettledFields(phy)
    ensures |CutLast(phy)| == |phy| && forall i :: 0 <= i < |phy| ==> CutLast(phy)[i].0 == phy[i].0
    decreases |phy|
  {
    if |phy| == 1 {
      var v := phy[0].1;
      TrimOfEnd(v);
      TrimEndLacks(v, ',');
      TrimEndLacks(v, '\n');
    } else {
      assert FieldOk(phy[0]) && AllOk(phy[1..]);
      CutLastReads(phy[1..]);
      assert CutLast(phy)[1..] == CutLast(phy[1..]);
    }
  }

  lemma HeaderPlain(name: string)
    requires Trimmed(name) && Lacks(name, '\n')
    ensures Lacks("rule " + name + ":", '\n') && Trimmed("rule " + name + ":")
  {
  }

  lemma PriorityPlain(n: int)
    requires -0x8000_0000 <= n < 0x8000_0000
    ensures Lacks("  priority " + PrintInt(n), '\n') && Trimmed("priority " + PrintInt(n))
  {
    ParsePrintI32(n);
  }

  lemma WhenPlain(when: string)
    requires Trimmed(when) && when != [] && Lacks(when, '\n')
    ensures Lacks("  when " + when, '\n') && Trimmed("when " + when)
  {
  }

  lemma {:induction false} NoNewlines(rules: seq<AstRule>)
    requires AllWellFormed(rules)
    ensures forall i :: 0 <= i < |LinesFrom(rules)| ==> Lacks(LinesFrom(rules)[i], '\n')
  {
    if rules != [] {
      var r := rules[0];
      assert WellFormed(r);
      HeaderPlain(r.name);
      PriorityPlain(r.priority);
      WhenPlain(r.when);
      assert AllOk(r.phy);
      PhyTextPlain(r.phy);
      NoNewlines(rules[1..]);
      forall i | 5 <= i < |LinesFrom(rules)|
        ensures Lacks(LinesFrom(rules)[i], '\n')
      {
        assert LinesFrom(rules)[i] == LinesFrom(rules[1..])[i - 5];
      }
      assert LinesFrom(rules)[..5] == ["", HeaderLine(r)] + StatementLines(r);
      forall i | 0 <= i < 5
        ensures Lacks(LinesFrom(rules)[i], '\n')
      {
        assert LinesFrom(rules)[i] == LinesFrom(rules)[..5][i];
      }
    }
  }

  // ---- Each printed line reads back -----------------------------------------

  /** An indented statement line. */
  ghost predicate States(line: string, stmt: string) {
    Trim(line) == stmt && stmt != [] && "  " <= line
  }

  lemma IndentedStates(stmt: string)
    requires Trimmed(stmt) && stmt != []
    ensures States("  " + stmt, stmt)
  {
    TwoSpaces(stmt);
  }

  lemma PriorityLine(n: int)
    requires -0x8000_0000 <= n < 0x8000_0000
    ensures States("  priority " + PrintInt(n), "priority " + PrintInt(n))
  {
    PriorityPlain(n);
    IndentedStates("priority " + PrintInt(n));
    assert "  " + ("priority " + PrintInt(n)) == "  priority " + PrintInt(n);
  }

  lemma PriorityReads(name: string, p: Partial, n: int)
    requires -0x8000_0000 <= n < 0x8000_0000
    ensures States("  priority " + PrintInt(n), "priority " + PrintInt(n))
    ensures Statement(name, p, "priority " + PrintInt(n)) == Ok(p.(priority := Some(n)))
  {
    PriorityLine(n);
    ParsePrintI32(n);
    assert ("priority " + PrintInt(n))[9..] == PrintInt(n);
    TrimTrimmed(PrintInt(n));
  }

  lemma WhenReads(name: string, p: Partial, when: string)
    requires Trimmed(when) && when != [] && Lacks(when, '\n')
    ensures States("  when " + when, "when " + when)
    ensures Statement(name, p, "when " + when) == Ok(p.(when := Some(when)))
  {
    WhenPlain(when);
    IndentedStates("when " + when);
    assert "  " + ("when " + when) == "  when " + when;
    assert ("when " + when)[5..] == when;
    TrimTrimmed(when);
  }

  /** The statement a `phy` line is read as. */
  function PhyStatement(phy: Fields): string
    requires phy != []
  {
    "phy " + PhyText(CutLast(phy))
  }

  lemma IndentedTrims(stmt: string)
    ensures Trim("  " + stmt) == Trim(stmt) && "  " <= "  " + stmt
  {
    TrimBlank(stmt);
    TrimBlank(" " + stmt);
    assert " " + (" " + stmt) == "  " + stmt;
  }

  lemma StatementTrims(text: string)
    requires TrimEnd(text) != []
    ensures Trim("phy " + text) == "phy " + TrimEnd(text)
  {
    TrimEndSkips("phy ", text);
    assert TrimStart("phy " + text) == "phy " + text;
  }

  lemma PhyLine(text: string)
    ensures "  " + ("phy " + text) == "  phy " + text
  {
  }

  lemma PhyStates(phy: Fields)
    requires phy != [] && AllOk(phy)
    ensures States("  phy " + PhyText(phy), PhyStatement(phy))
  {
    PhyTextCut(phy);
    IndentedTrims("phy " + PhyText(phy));
    StatementTrims(PhyText(phy));
    PhyLine(PhyText(phy));
  }

  lemma PhyStatementReads(name: string, p: Partial, phy: Fields)
    requires phy != [] && Sorted(phy) && AllOk(phy)
    ensures Statement(name, p, PhyStatement(phy)) == Ok(p.(phy := SettledFields(phy)))
  {
    var none: Fields, cut := [], CutLast(phy);
    CutLastReads(phy);
    assert none + cut == cut && none + SettledFields(cut) == SettledFields(cut);
    PhyReads(none, cut, false);
    PhyStatementIs(name, p, PhyText(cut), SettledFields(phy));
  }

  lemma PhyStatementIs(name: string, p: Partial, text: string, phy: Fields)
    requires AddFields([], Split(text, ",")) == Ok(phy)
    ensures Statement(name, p, "phy " + text) == Ok(p.(phy := phy))
  {
    var stmt := "phy " + text;
    assert stmt[4..] == text && stmt[0] == 'p' && stmt[1] == 'h';
    assert "phy " <= stmt && !("when " <= stmt);
    assert !("priority " <= stmt) by {
      assert stmt[1] != "priority "[1];
    }
  }

  lemma BodyStep(name: string, p: Partial, line: string, stmt: string, p': Partial, lines: seq<string>)
    requires States(line, stmt) && Statement(name, p, stmt) == Ok(p')
    ensures Body(name, p, [line] + lines) == Body(name, p', lines)
  {
    assert ([line] + lines)[1..] == lines;
  }

  /** A line the parser takes for the header of rule `name`. */
  ghost predicate Heads(line: string, name: string) {
    && Trim(line) == line && !Skipped(line) && IsHeader(line) && NameIn(line) == name
    && line != [] && !("  " <= line)
  }

  lemma HeaderReads(r: AstRule)
    requires WellFormed(r)
    ensures Heads(HeaderLine(r), r.name)
  {
    var line := HeaderLine(r);
    HeaderPlain(r.name);
    TrimTrimmed(line);
    TrimTrimmed(r.name);
    assert line[5..|line| - 1] == r.name;
    assert line[|line| - 1..] == ":";
  }

  lemma BodyBlank(name: string, p: Partial, lines: seq<string>)
    ensures Body(name, p, [""] + lines) == Body(name, p, lines)
  {
    assert ([""] + lines)[1..] == lines;
  }

  lemma BodyHeader(name: string, p: Partial, line: string, next: string, lines: seq<string>)
    requires Heads(line, next)
    ensures Body(name, p, [line] + lines) == Ok((p, [line] + lines))
  {
  }

  lemma BodyStops(name: string, p: Partial, rules: seq<AstRule>)
    requires AllWellFormed(rules)
    ensures Body(name, p, LinesFrom(rules)) == Ok((p, Tail(rules)))
  {
    if rules != [] {
      HeaderReads(rules[0]);
      BodyBlank(name, p, Tail(rules));
      BodyHeader(name, p, HeaderLine(rules[0]), rules[0].name, StatementLines(rules[0]) + LinesFrom(rules[1..]));
    }
  }

  /** A statement line and what it adds. */
  ghost predicate Adds(name: string, p: Partial, line: string, p': Partial) {
    exists stmt :: States(line, stmt) && Statement(name, p, stmt) == Ok(p')
  }

  lemma ThreeSteps(name: string, p: Partial, l1: string, p1: Partial, l2: string, p2: Partial, l3: string, p3: Partial,
                   rest: seq<string>)
    requires Adds(name, p, l1, p1) && Adds(name, p1, l2, p2) && Adds(name, p2, l3, p3)
    ensures Body(name, p, [l1, l2, l3] + rest) == Body(name, p3, rest)
  {
    var s1 :| States(l1, s1) && Statement(name, p, s1) == Ok(p1);
    var s2 :| States(l2, s2) && Statement(name, p1, s2) == Ok(p2);
    var s3 :| States(l3, s3) && Statement(name, p2, s3) == Ok(p3);
    assert [l1, l2, l3] + rest == [l1] + ([l2] + ([l3] + rest));
    BodyStep(name, p, l1, s1, p1, [l2] + ([l3] + rest));
    BodyStep(name, p1, l2, s2, p2, [l3] + rest);
    BodyStep(name, p2, l3, s3, p3, rest);
  }

  lemma StatementsRead(r: AstRule, rest: seq<string>)
    requires WellFormed(r)
    ensures Body(r.name, NOTHING, StatementLines(r) + rest) ==
            Body(r.name, Partial(Some(r.priority), Some(r.when), SettledFields(r.phy)), rest)
  {
    var p1 := NOTHING.(priority := Some(r.priority));
    var p2 := p1.(when := Some(r.when));
    assert AllOk(r.phy);
    PriorityReads(r.name, NOTHING, r.priority);
    WhenReads(r.name, p1, r.when);
    PhyStates(r.phy);
    PhyStatementReads(r.name, p2, r.phy);
    ThreeSteps(r.name, NOTHING, "  priority " + PrintInt(r.priority), p1, "  when " + r.when, p2,
               "  phy " + PhyText(r.phy), p2.(phy := SettledFields(r.phy)), rest);
  }

  lemma RuleReads(r: AstRule, rules: seq<AstRule>)
    requires WellFormed(r) && AllWellFormed(rules)
    ensures RuleAt(r.name, StatementLines(r) + LinesFrom(rules)) == Ok((SettledRule(r), Tail(rules)))
  {
    StatementsRead(r, LinesFrom(rules));
    BodyStops(r.name, Partial(Some(r.priority), Some(r.when), SettledFields(r.phy)), rules);
  }

  lemma SkipStep(line: string, lines: seq<string>)
    requires Skipped(Trim(line))
    ensures ParseLines([line] + lines) == ParseLines(lines)
  {
    assert ([line] + lines)[1..] == lines;
  }

  lemma HeaderStep(line: string, name: string, lines: seq<string>)
    requires Heads(line, name)
    ensures ParseLines([line] + lines) == ParseRule(name, lines)
  {
    assert ([line] + lines)[1..] == lines;
  }

  lemma RuleStep(name: string, lines: seq<string>, r: AstRule, rest: seq<string>, rules: seq<AstRule>)
    requires RuleAt(name, lines) == Ok((r, rest)) && ParseLines(rest) == Ok(rules)
    ensures ParseRule(name, lines) == Ok([r] + rules)
  {
  }

  lemma {:induction false} TailReads(rules: seq<AstRule>)
    requires AllWellFormed(rules)
    ensures ParseLines(Tail(rules)) == Ok(Settled(rules))
    decreases |rules|
  {
    if rules != [] {
      var r := rules[0];
      var lines := StatementLines(r) + LinesFrom(rules[1..]);
      RuleReads(r, rules[1..]);
      TailReads(rules[1..]);
      RuleStep(r.name, lines, SettledRule(r), Tail(rules[1..]), Settled(rules[1..]));
      HeaderReads(r);
      HeaderStep(HeaderLine(r), r.name, lines);
    }
  }

  lemma LinesRead(rules: seq<AstRule>)
    requires AllWellFormed(rules)
    ensures ParseLines(LinesFrom(rules)) == Ok(Settled(rules))
  {
    TailReads(rules);
    if rules != [] {
      SkipStep("", Tail(rules));
    }
  }

  lemma HeaderSkipped()
    ensures Skipped(Trim(HEADER))
  {
    TrimTrimmed(HEADER);
  }

  lemma RenderedText(rules: seq<AstRule>)
    requires AllWellFormed(rules)
    ensures RenderText(rules) == Unlines([HEADER] + LinesFrom(rules))
  {
    var lines := [HEADER] + LinesFrom(rules);
    AllLinesAre(rules);
    JoinIsUnlines(lines);
    if rules != [] {
      LastLine(rules);
    }
    UnlinesUnpopped(lines);
  }

  lemma {:induction false} UnlinesLast(lines: seq<string>) returns (start: string)
    requires lines != []
    ensures Unlines(lines) == start + lines[|lines| - 1] + "\n"
  {
    if |lines| == 1 {
      start := [];
      assert Unlines(lines[1..]) == [];
    } else {
      var later := UnlinesLast(lines[1..]);
      start := lines[0] + "\n" + later;
    }
  }

  lemma UnlinesUnpopped(lines: seq<string>)
    requires lines != [] && EndsPlainly(lines[|lines| - 1])
    ensures PopBlank(Unlines(lines)) == Unlines(lines) && EndsWith(Unlines(lines), "\n")
  {
    var start := UnlinesLast(lines);
    NothingPopped(Unlines(lines), start, lines[|lines| - 1]);
  }

  lemma {:induction false} LastLine(rules: seq<AstRule>)
    requires AllWellFormed(rules) && rules != []
    ensures LinesFrom(rules) != [] && EndsPlainly(LinesFrom(rules)[|LinesFrom(rules)| - 1])
  {
    var r, rest := rules[0], LinesFrom(rules[1..]);
    if |rules| > 1 {
      LastLine(rules[1..]);
    } else {
      assert WellFormed(r) && AllOk(r.phy);
      PhyTextPlain(r.phy);
    }
  }

  lemma AllLackNewlines(rules: seq<AstRule>)
    requires AllWellFormed(rules)
    ensures forall i :: 0 <= i < |[HEADER] + LinesFrom(rules)| ==> Lacks(([HEADER] + LinesFrom(rules))[i], '\n')
  {
    NoNewlines(rules);
  }

  // ---- Carriage returns at the ends of lines --------------------------------

  lemma ChopKeepsIndent(line: string)
    ensures "  " <= ChopReturn(line) <==> "  " <= line
  {
    if ChopReturn(line) != line {
      assert line == ChopReturn(line) + ['\r'];
    }
  }

  lemma SameIndentation(line: string)
    ensures Indentation(ChopReturn(line)) == Indentation(line)
  {
    TrimChopped(line);
    ChopKeepsIndent(line);
  }

  lemma {:induction false} SameBody(name: string, p: Partial, lines: seq<string>)
    ensures match Body(name, p, lines)
            case Ok((p', rest)) => Body(name, p, ChopAll(lines)) == Ok((p', ChopAll(rest)))
            case Err(e) => Body(name, p, ChopAll(lines)) == Err(e)
    decreases |lines|
  {
    if lines != [] {
      SameIndentation(lines[0]);
      assert ChopAll(lines)[1..] == ChopAll(lines[1..]);
      match Indentation(lines[0])
      case Blank => SameBody(name, p, lines[1..]);
      case Unindented =>
      case Indented(stmt) =>
        if Statement(name, p, stmt).Ok? {
          SameBody(name, Statement(name, p, stmt).value, lines[1..]);
        }
    }
  }

  lemma SameRule(name: string, lines: seq<string>)
    ensures match RuleAt(name, lines)
            case Ok((rule, rest)) => RuleAt(name, ChopAll(lines)) == Ok((rule, ChopAll(rest)))
            case Err(e) => RuleAt(name, ChopAll(lines)) == Err(e)
  {
    SameBody(name, NOTHING, lines);
  }

  /** The parser does not see carriage returns at the ends of lines. */
  lemma {:induction false} SameParse(lines: seq<string>)
    ensures ParseLines(ChopAll(lines)) == ParseLines(lines)
    decreases |lines|
  {
    if lines != [] {
      var line := Trim(lines[0]);
      TrimChopped(lines[0]);
      assert ChopAll(lines)[1..] == ChopAll(lines[1..]);
      if Skipped(line) {
        SameParse(lines[1..]);
      } else if IsHeader(line) {
        SameRule(NameIn(line), lines[1..]);
        if RuleAt(NameIn(line), lines[1..]).Ok? {
          SameParse(RuleAt(NameIn(line), lines[1..]).value.1);
        }
      }
    }
  }

  // ---- What survives --------------------------------------------------------

  /**
   Printing a rule list and parsing the text gives the list back with every
   value trimmed, first of white space and then of quotes.
   */
  lemma ParseOfRender(rules: seq<AstRule>)
    requires AllWellFormed(rules)
    ensures ParseLines(Lines(RenderText(rules))) == Ok(Settled(rules))
  {
    var lines := [HEADER] + LinesFrom(rules);
    RenderedText(rules);
    AllLackNewlines(rules);
    LinesOfUnlines(lines);
    SameParse(lines);
    LinesRead(rules);
    HeaderSkipped();
    SkipStep(HEADER, LinesFrom(rules));
  }

  // ---- The printed text -----------------------------------------------------

  /** How fields are written: key, equals sign and value, a comma and a blank between two. */
  function WrittenFields(phy: Fields): string {
    if phy == [] then ""
    else phy[0].0 + "=" + phy[0].1 + (if |phy| == 1 then "" else ", " + WrittenFields(phy[1..]))
  }

  lemma {:induction false} FieldsAre(phy: Fields)
    ensures PhyText(phy) == WrittenFields(phy)
  {
    if |phy| > 1 {
      FieldsAre(phy[1..]);
    }
  }

  /** How a rule is written: behind a blank line its name, its priority, its condition and its fields. */
  function Paragraph(r: AstRule): string {
    "\n" + ("rule " + r.name + ":" + "\n" + ("  priority " + PrintInt(r.priority) + "\n"
    + ("  when " + r.when + "\n" + ("  phy " + WrittenFields(r.phy) + "\n"))))
  }

  function Paragraphs(rules: seq<AstRule>): string {
    if rules == [] then "" else Paragraph(rules[0]) + Paragraphs(rules[1..])
  }

  lemma FourLines(a: string, b: string, c: string, d: string, rest: seq<string>)
    ensures Unlines([""] + ([a, b, c, d] + rest)) ==
            "\n" + (a + "\n" + (b + "\n" + (c + "\n" + (d + "\n")))) + Unlines(rest)
  {
    var lines := [""] + ([a, b, c, d] + rest);
    assert lines[1..] == [a, b, c, d] + rest && lines[1..][1..] == [b, c, d] + rest;
    assert lines[1..][1..][1..] == [c, d] + rest && lines[1..][1..][1..][1..] == [d] + rest;
    assert lines[1..][1..][1..][1..][1..] == rest;
    var tail := Unlines(rest);
    assert Unlines([d] + rest) == d + "\n" + tail;
    assert Unlines([c, d] + rest) == c + "\n" + Unlines([d] + rest);
    assert Unlines([b, c, d] + rest) == b + "\n" + Unlines([c, d] + rest);
    assert Unlines([a, b, c, d] + rest) == a + "\n" + Unlines([b, c, d] + rest);
  }

  lemma LinesOfFirst(rules: seq<AstRule>)
    requires rules != []
    ensures var r := rules[0];
            LinesFrom(rules) == [""] + ([HeaderLine(r), "  priority " + PrintInt(r.priority), "  when " + r.when,
                                         "  phy " + PhyText(r.phy)] + LinesFrom(rules[1..]))
  {
    var r, rest := rules[0], LinesFrom(rules[1..]);
    assert [HeaderLine(r)] + (StatementLines(r) + rest) == RuleLines(r) + rest;
  }

  lemma ParagraphIs(r: AstRule)
    ensures Paragraph(r) ==
            "\n" + (HeaderLine(r) + "\n" + ("  priority " + PrintInt(r.priority) + "\n"
            + ("  when " + r.when + "\n" + ("  phy " + PhyText(r.phy) + "\n"))))
  {
    FieldsAre(r.phy);
  }

  lemma {:induction false} ParagraphsAre(rules: seq<AstRule>)
    ensures Unlines(LinesFrom(rules)) == Paragraphs(rules)
  {
    if rules != [] {
      var r := rules[0];
      ParagraphsAre(rules[1..]);
      LinesOfFirst(rules);
      ParagraphIs(r);
      FourLines(HeaderLine(r), "  priority " + PrintInt(r.priority), "  when " + r.when, "  phy " + PhyText(r.phy),
                LinesFrom(rules[1..]));
    }
  }

  /** The printed text is the heading and the rules in their order, written so. */
  lemma PrintedIs(rules: seq<AstRule>)
    requires AllWellFormed(rules)
    ensures RenderText(rules) == "# GPLang (gplc output)\n" + Paragraphs(rules)
  {
    RenderedText(rules);
    ParagraphsAre(rules);
    assert ([HEADER] + LinesFrom(rules))[1..] == LinesFrom(rules);
  }

  ghost predicate StableFields(phy: Fields) {
    forall k :: 0 <= k < |phy| ==> SettledValue(phy[k].1) == phy[k].1
  }

  ghost predicate Stable(rules: seq<AstRule>) {
    forall i :: 0 <= i < |rules| ==> StableFields(rules[i].phy)
  }

  lemma {:induction false} FieldsSettledIff(phy: Fields)
    ensures SettledFields(phy) == phy <==> StableFields(phy)
  {
    if phy != [] {
      FieldsSettledIff(phy[1..]);
      assert phy == [phy[0]] + phy[1..];
      assert SettledFields(phy) == phy <==> SettledField(phy[0]) == phy[0] && SettledFields(phy[1..]) == phy[1..];
    }
  }

  lemma {:induction false} SettledIff(rules: seq<AstRule>)
    ensures Settled(rules) == rules <==> Stable(rules)
  {
    if rules != [] {
      var r, rest := rules[0], rules[1..];
      SettledIff(rest);
      FieldsSettledIff(r.phy);
      assert rules == [r] + rest;
      assert Settled(rules) == rules <==> SettledRule(r) == r && Settled(rest) == rest;
      assert SettledRule(r) == r <==> SettledFields(r.phy) == r.phy;
    }
  }

  /**
   Printing a rule list and parsing the text gives the same list back exactly
   when no value has white space, and then no quotes, at its ends.
   */
  lemma ParseUndoesRenderIff(rules: seq<AstRule>)
    requires AllWellFormed(rules)
    ensures ParseLines(Lines(RenderText(rules))) == Ok(rules) <==> Stable(rules)
  {
    ParseOfRender(rules);
    SettledIff(rules);
  }

  /**
   Which values survive: a value reads back as itself exactly when trimming it
   and then dropping the quotes at its ends changes nothing; so `" x "` in quotes
   comes back with its spaces the first time it is parsed, and loses them the
   next.
   */
  lemma ValueStableIff(key: string, v: string)
    requires Trimmed(key) && key != [] && Lacks(key, '=')
    ensures AddField([], key + "=" + v) == Ok([(key, v)]) <==> SettledValue(v) == v
  {
    TrimAfterKey(key, v);
    SplitOnceAt(key, '=', TrimEnd(v));
    TrimTrimmed(key);
    TrimOfEnd(v);
  }

  // ---- Parsing again --------------------------------------------------------

  /** What a parsed field looks like. */
  predicate FieldParsed(f: (string, string)) {
    FieldOk(f) && Bare(f.1, '"')
  }

  ghost predicate AllParsed(phy: Fields) {
    forall i :: 0 <= i < |phy| ==> FieldParsed(phy[i])
  }

  lemma {:induction false} InsertParsed(m: Fields, k: string, v: string)
    requires AllParsed(m) && FieldParsed((k, v))
    ensures AllParsed(Insert(m, k, v))
  {
    if m != [] && !Less(k, m[0].0) && k != m[0].0 {
      InsertParsed(m[1..], k, v);
    }
  }

  lemma AddFieldParsed(acc: Fields, part: string)
    requires Sorted(acc) && AllParsed(acc) && Lacks(part, ',') && Lacks(part, '\n')
    ensures AddField(acc, part).Ok? ==> Sorted(AddField(acc, part).value) && AllParsed(AddField(acc, part).value)
  {
    var trimmed := Trim(part);
    TrimLacks(part, ',');
    TrimLacks(part, '\n');
    var pair := SplitOnce(trimmed, "=");
    if trimmed != [] && pair.Some? {
      var left, right := pair.value.0, pair.value.1;
      FoundFirst(trimmed, '=');
      KeyParsed(left);
      ValueParsed(right);
      var v := TrimMatches(Trim(right), '"');
      InsertParsed(acc, Trim(left), v);
      InsertIsUpdate(acc, Trim(left), v, []);
    }
  }

  lemma KeyParsed(left: string)
    requires Lacks(left, ',') && Lacks(left, '=') && Lacks(left, '\n')
    ensures Trimmed(Trim(left)) && Lacks(Trim(left), ',') && Lacks(Trim(left), '=') && Lacks(Trim(left), '\n')
  {
    TrimIsTrimmed(left);
    TrimLacks(left, ',');
    TrimLacks(left, '=');
    TrimLacks(left, '\n');
  }

  lemma ValueParsed(right: string)
    requires Lacks(right, ',') && Lacks(right, '\n')
    ensures Lacks(SettledValue(right), ',') && Lacks(SettledValue(right), '\n') && Bare(SettledValue(right), '"')
  {
    TrimLacks(right, ',');
    TrimLacks(right, '\n');
    TrimMatchesLacks(Trim(right), '"', ',');
    TrimMatchesLacks(Trim(right), '"', '\n');
    TrimMatchesBare(Trim(right), '"');
  }

  lemma {:induction false} AddFieldsParsed(acc: Fields, parts: seq<string>)
    requires Sorted(acc) && AllParsed(acc)
    requires forall i :: 0 <= i < |parts| ==> Lacks(parts[i], ',') && Lacks(parts[i], '\n')
    ensures AddFields(acc, parts).Ok? ==> Sorted(AddFields(acc, parts).value) && AllParsed(AddFields(acc, parts).value)
    decreases |parts|
  {
    if parts != [] {
      AddFieldParsed(acc, parts[0]);
      if AddField(acc, parts[0]).Ok? {
        AddFieldsParsed(AddField(acc, parts[0]).value, parts[1..]);
      }
    }
  }

  /** What the statements read so far look like. */
  ghost predicate PartialOk(p: Partial) {
    && (p.priority.Some? ==> -0x8000_0000 <= p.priority.value < 0x8000_0000)
    && (p.when.Some? ==> Trimmed(p.when.value) && p.when.value != [] && Lacks(p.when.value, '\n'))
    && Sorted(p.phy) && AllParsed(p.phy)
  }

  lemma WhenParsed(stmt: string)
    requires Trimmed(stmt) && Lacks(stmt, '\n') && "when " <= stmt
    ensures Trimmed(Trim(stmt[5..])) && Trim(stmt[5..]) != [] && Lacks(Trim(stmt[5..]), '\n')
  {
    assert stmt[4] == ' ' && |stmt| > 5;
    assert stmt[5..][|stmt| - 6] == stmt[|stmt| - 1];
    TrimIsTrimmed(stmt[5..]);
    TrimSome(stmt[5..]);
    TrimLacks(stmt[5..], '\n');
  }

  lemma StatementParsed(name: string, p: Partial, stmt: string)
    requires PartialOk(p) && Trimmed(stmt) && Lacks(stmt, '\n')
    ensures Statement(name, p, stmt).Ok? ==> PartialOk(Statement(name, p, stmt).value)
  {
    if "priority " <= stmt {
    } else if "when " <= stmt {
      WhenParsed(stmt);
    } else if "phy " <= stmt {
      SplitLacks(stmt[4..], ',', '\n');
      AddFieldsParsed([], Split(stmt[4..], ","));
    }
  }

  ghost predicate LinesOk(lines: seq<string>) {
    forall i :: 0 <= i < |lines| ==> Lacks(lines[i], '\n')
  }

  lemma {:induction false} BodyParsed(name: string, p: Partial, lines: seq<string>)
    requires PartialOk(p) && LinesOk(lines)
    ensures Body(name, p, lines).Ok? ==>
              PartialOk(Body(name, p, lines).value.0) && LinesOk(Body(name, p, lines).value.1)
    decreases |lines|
  {
    if lines != [] {
      match Indentation(lines[0])
      case Blank => BodyParsed(name, p, lines[1..]);
      case Unindented =>
      case Indented(stmt) =>
        TrimIsTrimmed(lines[0]);
        TrimLacks(lines[0], '\n');
        StatementParsed(name, p, stmt);
        if Statement(name, p, stmt).Ok? {
          BodyParsed(name, Statement(name, p, stmt).value, lines[1..]);
        }
    }
  }

  /** A parsed rule: printable, and no value has quotes at its ends. */
  ghost predicate RuleParsed(r: AstRule) {
    WellFormed(r) && AllParsed(r.phy)
  }

  lemma RuleAtParsed(name: string, lines: seq<string>)
    requires Trimmed(name) && Lacks(name, '\n') && LinesOk(lines)
    ensures RuleAt(name, lines).Ok? ==>
              RuleParsed(RuleAt(name, lines).value.0) && LinesOk(RuleAt(name, lines).value.1)
  {
    BodyParsed(name, NOTHING, lines);
  }

  lemma NameParsed(line: string)
    requires IsHeader(line) && Lacks(line, '\n')
    ensures Trimmed(NameIn(line)) && Lacks(NameIn(line), '\n')
  {
    assert line[4] == ' ' && line[|line| - 1] == ':';
    TrimIsTrimmed(line[5..|line| - 1]);
    TrimLacks(line[5..|line| - 1], '\n');
  }

  ghost predicate RulesParsed(rules: seq<AstRule>) {
    forall i :: 0 <= i < |rules| ==> RuleParsed(rules[i])
  }

  lemma RulesParsedCons(name: string, lines: seq<string>)
    requires RuleAt(name, lines).Ok? && RuleParsed(RuleAt(name, lines).value.0)
    requires var rest := ParseLines(RuleAt(name, lines).value.1); rest.Ok? ==> RulesParsed(rest.value)
    ensures ParseRule(name, lines).Ok? ==> RulesParsed(ParseRule(name, lines).value)
  {
  }

  lemma {:induction false} LinesParsed(lines: seq<string>)
    requires LinesOk(lines)
    ensures ParseLines(lines).Ok? ==> RulesParsed(ParseLines(lines).value)
    decreases |lines|
  {
    if lines != [] {
      var line := Trim(lines[0]);
      TrimLacks(lines[0], '\n');
      if Skipped(line) {
        LinesParsed(lines[1..]);
      } else if IsHeader(line) {
        NameParsed(line);
        RuleAtParsed(NameIn(line), lines[1..]);
        if RuleAt(NameIn(line), lines[1..]).Ok? {
          LinesParsed(RuleAt(NameIn(line), lines[1..]).value.1);
          RulesParsedCons(NameIn(line), lines[1..]);
        }
      }
    }
  }

  lemma BareStableIff(v: string)
    requires Bare(v, '"')
    ensures SettledValue(v) == v <==> Trimmed(v)
  {
    TrimLength(v);
    TrimMatchesBare(Trim(v), '"');
    if Trimmed(v) {
      TrimTrimmed(v);
    }
  }

  /** Every value is free of white space at its ends. */
  ghost predicate ValuesTrimmed(rules: seq<AstRule>) {
    forall i, k :: 0 <= i < |rules| && 0 <= k < |rules[i].phy| ==> Trimmed(rules[i].phy[k].1)
  }

  /**
   Whatever text parses, printing the rules and parsing them again succeeds, and
   gives the same rules exactly when no value has white space at its ends.
   */
  lemma ParseAgainIff(text: string)
    requires ParseLines(Lines(text)).Ok?
    ensures var rules := ParseLines(Lines(text)).value;
            && ParseLines(Lines(RenderText(rules))) == Ok(Settled(rules))
            && (ParseLines(Lines(RenderText(rules))) == Ok(rules) <==> ValuesTrimmed(rules))
  {
    var rules := ParseLines(Lines(text)).value;
    LinesLackNewlines(text);
    LinesParsed(Lines(text));
    ParseOfRender(rules);
    ParseUndoesRenderIff(rules);
    forall i, k | 0 <= i < |rules| && 0 <= k < |rules[i].phy|
      ensures SettledValue(rules[i].phy[k].1) == rules[i].phy[k].1 <==> Trimmed(rules[i].phy[k].1)
    {
      assert RuleParsed(rules[i]) && FieldParsed(rules[i].phy[k]);
      BareStableIff(rules[i].phy[k].1);
    }
    if ValuesTrimmed(rules) {
      assert forall i :: 0 <= i < |rules| ==> StableFields(rules[i].phy);
    }
    if Stable(rules) {
      forall i, k | 0 <= i < |rules| && 0 <= k < |rules[i].phy|
        ensures Trimmed(rules[i].phy[k].1)
      {
        assert StableFields(rules[i].phy);
      }
    }
  }
}

/** The rule language's printer and parser in src/bin/radnet_tools.rs. */
module GplText {
  import opened Outcome
  import opened TextTools

  /** A `BTreeMap` of strings: its entries in key order. */
  type Fields = seq<(string, string)>

  datatype AstRule = AstRule(name: string, priority: int, when: string, phy: Fields)

  datatype Error =
    | ExpectedRule(line: string)
    | BadPriority(name: string)
    | UnsupportedStatement(name: string, stmt: string)
    | BadPhyField(part: string)
    | MissingPriority(name: string)
    | MissingWhen(name: string)
    | MissingPhy(name: string)

  // ---- Ordered maps ---------------------------------------------------------

  function Insert(m: Fields, k: string, v: string): Fields {
    if m == [] then [(k, v)]
    else if Less(k, m[0].0) then [(k, v)] + m
    else if k == m[0].0 then [(k, v)] + m[1..]
    else [m[0]] + Insert(m[1..], k, v)
  }

  function Lookup(m: Fields, k: string): Option<string> {
    if m == [] then None else if m[0].0 == k then Some(m[0].1) else Lookup(m[1..], k)
  }

  ghost predicate Sorted(m: Fields) {
    forall i, j :: 0 <= i < j < |m| ==> Less(m[i].0, m[j].0)
  }

  ghost predicate Above(m: Fields, k: string) {
    forall i :: 0 <= i < |m| ==> Less(k, m[i].0)
  }

  lemma {:induction false} InsertKeepsAbove(m: Fields, k: string, v: string, low: string)
    requires Above(m, low) && Less(low, k)
    ensures Above(Insert(m, k, v), low)
  {
    if m != [] && k != m[0].0 && !Less(k, m[0].0) {
      assert Above(m[1..], low);
      InsertKeepsAbove(m[1..], k, v, low);
    }
  }

  /** Inserting keeps the keys in order, sets its own key and no other. */
  lemma {:induction false} InsertIsUpdate(m: Fields, k: string, v: string, other: string)
    requires Sorted(m)
    ensures Sorted(Insert(m, k, v))
    ensures Lookup(Insert(m, k, v), other) == if other == k then Some(v) else Lookup(m, other)
  {
    if m != [] {
      LessTotal(k, m[0].0);
      if Less(k, m[0].0) {
        forall i | 0 <= i < |m|
          ensures Less(k, m[i].0)
        {
          if i > 0 {
            LessTransitive(k, m[0].0, m[i].0);
          }
        }
      } else if k != m[0].0 {
        assert Above(m[1..], m[0].0);
        InsertKeepsAbove(m[1..], k, v, m[0].0);
        InsertIsUpdate(m[1..], k, v, other);
      }
    }
  }

  lemma {:induction false} InsertLast(m: Fields, k: string, v: string)
    requires forall i :: 0 <= i < |m| ==> Less(m[i].0, k)
    ensures Insert(m, k, v) == m + [(k, v)]
  {
    if m != [] {
      LessTotal(m[0].0, k);
      LessIrreflexive(k);
      InsertLast(m[1..], k, v);
    }
  }

  // ---- Printing -------------------------------------------------------------

  function FieldText(f: (string, string)): string {
    f.0 + "=" + f.1
  }

  function PhyText(phy: Fields): string {
    if phy == [] then []
    else if |phy| == 1 then FieldText(phy[0])
    else FieldText(phy[0]) + ", " + PhyText(phy[1..])
  }

  function HeaderLine(r: AstRule): string {
    "rule " + r.name + ":"
  }

  function StatementLines(r: AstRule): seq<string> {
    ["  priority " + PrintInt(r.priority), "  when " + r.when, "  phy " + PhyText(r.phy)]
  }

  function RuleLines(r: AstRule): seq<string> {
    [HeaderLine(r)] + StatementLines(r)
  }

  const HEADER: string := "# GPLang (gplc output)"

  /** The lines of the rules behind `lines`, a blank one after each. */
  function AppendRules(lines: seq<string>, rules: seq<AstRule>): seq<string>
    decreases |rules|
  {
    if rules == [] then lines else AppendRules(lines + RuleLines(rules[0]) + [""], rules[1..])
  }

  function AllLines(rules: seq<AstRule>): seq<string> {
    AppendRules([HEADER, ""], rules)
  }

  /** Blank lines at the end collapse into one newline. */
  function PopBlank(s: string): string {
    if EndsWith(s, "\n\n") then PopBlank(s[..|s| - 1]) else s
  }

  function RenderText(rules: seq<AstRule>): string {
    var text := PopBlank(Join(AllLines(rules), "\n"));
    if EndsWith(text, "\n") then text else text + "\n"
  }

  /** `render_gpl`. */
  method RenderGpl(rules: seq<AstRule>) returns (out: string)
    ensures out == RenderText(rules)
  {
    var lines := [HEADER, ""];
    for i := 0 to |rules|
      invariant AppendRules(lines, rules[i..]) == AllLines(rules)
    {
      assert rules[i..][0] == rules[i] && rules[i..][1..] == rules[i + 1..];
      lines := lines + RuleLines(rules[i]) + [""];
    }
    out := Join(lines, "\n");
    ghost var joined := out;
    while EndsWith(out, "\n\n")
      invariant PopBlank(out) == PopBlank(joined)
      decreases |out|
    {
      out := out[..|out| - 1];
    }
    if !EndsWith(out, "\n") {
      out := out + "\n";
    }
  }

  // ---- Parsing --------------------------------------------------------------

  /** The statements of one rule read so far. */
  datatype Partial = Partial(priority: Option<int>, when: Option<string>, phy: Fields)

  /** One comma-separated part of a `phy` statement. */
  function AddField(acc: Fields, part: string): Result<Fields, Error> {
    var trimmed := Trim(part);
    if trimmed == [] then Ok(acc)
    else
      var pair := SplitOnce(trimmed, "=");
      if pair.None? then Err(BadPhyField(trimmed))
      else Ok(Insert(acc, Trim(pair.value.0), TrimMatches(Trim(pair.value.1), '"')))
  }

  function AddFields(acc: Fields, parts: seq<string>): Result<Fields, Error>
    decreases |parts|
  {
    if parts == [] then Ok(acc)
    else
      match AddField(acc, parts[0])
      case Err(e) => Err(e)
      case Ok(acc') => AddFields(acc', parts[1..])
  }

  /** `parse_phy_pairs`. */
  method ParsePhyPairs(text: string) returns (r: Result<Fields, Error>)
    ensures r == AddFields([], Split(text, ","))
  {
    var parts := Split(text, ",");
    var acc: Fields := [];
    for i := 0 to |parts|
      invariant AddFields(acc, parts[i..]) == AddFields([], parts)
    {
      assert parts[i..][0] == parts[i] && parts[i..][1..] == parts[i + 1..];
      var added := AddField(acc, parts[i]);
      if added.Err? {
        return Err(added.error);
      }
      acc := added.value;
    }
    r := Ok(acc);
  }

  function Statement(name: string, p: Partial, stmt: string): Result<Partial, Error> {
    if "priority " <= stmt then
      var n := ParseI32(Trim(stmt[9..]));
      if n.None? then Err(BadPriority(name)) else Ok(p.(priority := n))
    else if "when " <= stmt then Ok(p.(when := Some(Trim(stmt[5..]))))
    else if "phy " <= stmt then
      match AddFields([], Split(stmt[4..], ","))
      case Err(e) => Err(e)
      case Ok(phy) => Ok(p.(phy := phy))
    else Err(UnsupportedStatement(name, stmt))
  }

  datatype Indent = Blank | Unindented | Indented(stmt: string)

  function Indentation(line: string): Indent {
    if Trim(line) == [] then Blank else if !("  " <= line) then Unindented else Indented(Trim(line))
  }

  /** The indented statements under a rule's header, and the lines from the next header on. */
  function Body(name: string, p: Partial, lines: seq<string>): (r: Result<(Partial, seq<string>), Error>)
    ensures r.Ok? ==> |r.value.1| <= |lines|
    decreases |lines|
  {
    if lines == [] then Ok((p, lines))
    else
      match Indentation(lines[0])
      case Blank => Body(name, p, lines[1..])
      case Unindented => Ok((p, lines))
      case Indented(stmt) =>
        match Statement(name, p, stmt)
        case Err(e) => Err(e)
        case Ok(p') => Body(name, p', lines[1..])
  }

  function Finish(name: string, p: Partial): Result<AstRule, Error> {
    if p.priority.None? then Err(MissingPriority(name))
    else if p.when.None? then Err(MissingWhen(name))
    else if p.phy == [] then Err(MissingPhy(name))
    else Ok(AstRule(name, p.priority.value, p.when.value, p.phy))
  }

  predicate Skipped(line: string) {
    line == [] || line[0] == '#'
  }

  predicate IsHeader(line: string) {
    "rule " <= line && EndsWith(line, ":")
  }

  function NameIn(line: string): string
    requires IsHeader(line)
  {
    assert line[4] == ' ' && line[|line| - 1] == ':';
    Trim(line[5..|line| - 1])
  }

  const NOTHING: Partial := Partial(None, None, [])

  function ParseLines(lines: seq<string>): Result<seq<AstRule>, Error>
    decreases |lines|, 0
  {
    if lines == [] then Ok([])
    else
      var line := Trim(lines[0]);
      if Skipped(line) then ParseLines(lines[1..])
      else if !IsHeader(line) then Err(ExpectedRule(line))
      else ParseRule(NameIn(line), lines[1..])
  }

  /** The rule whose header has just been read, and the lines behind it. */
  function RuleAt(name: string, lines: seq<string>): (r: Result<(AstRule, seq<string>), Error>)
    ensures r.Ok? ==> |r.value.1| <= |lines|
  {
    match Body(name, NOTHING, lines)
    case Err(e) => Err(e)
    case Ok((p, rest)) =>
      match Finish(name, p)
      case Err(e) => Err(e)
      case Ok(rule) => Ok((rule, rest))
  }

  function ParseRule(name: string, lines: seq<string>): Result<seq<AstRule>, Error>
    decreases |lines|, 1
  {
    match RuleAt(name, lines)
    case Err(e) => Err(e)
    case Ok((rule, rest)) =>
      match ParseLines(rest)
      case Err(e) => Err(e)
      case Ok(rules) => Ok([rule] + rules)
  }

  // ---- The parser's loops ---------------------------------------------------

  /** The inner loop: statements from line `i` on. */
  method ParseBody(name: string, lines: seq<string>, start: nat) returns (r: Result<Partial, Error>, i: nat)
    requires start <= |lines|
    ensures start <= i <= |lines|
    ensures match r
            case Ok(p) => Body(name, NOTHING, lines[start..]) == Ok((p, lines[i..]))
            case Err(e) => Body(name, NOTHING, lines[start..]) == Err(e)
  {
    var p := NOTHING;
    ghost var goal := Body(name, NOTHING, lines[start..]);
    i := start;
    while i < |lines|
      invariant start <= i <= |lines|
      invariant Body(name, p, lines[i..]) == goal
    {
      var raw := lines[i];
      assert lines[i..][0] == raw && lines[i..][1..] == lines[i + 1..];
      var indentation := Indentation(raw);
      if indentation.Unindented? {
        break;
      }
      i := i + 1;
      if indentation.Indented? {
        var stated := Statement(name, p, indentation.stmt);
        if stated.Err? {
          return Err(stated.error), i;
        }
        p := stated.value;
      }
    }
    r := Ok(p);
  }

  method ParseOne(name: string, lines: seq<string>, start: nat) returns (r: Result<AstRule, Error>, i: nat)
    requires start <= |lines|
    ensures start <= i <= |lines|
    ensures match r
            case Ok(rule) => RuleAt(name, lines[start..]) == Ok((rule, lines[i..]))
            case Err(e) => RuleAt(name, lines[start..]) == Err(e)
  {
    var body, next := ParseBody(name, lines, start);
    i := next;
    r := if body.Err? then Err(body.error) else Finish(name, body.value);
  }

  /** What the parse comes to when `done` rules are already there. */
  function Onwards(done: seq<AstRule>, lines: seq<string>): Result<seq<AstRule>, Error> {
    match ParseLines(lines)
    case Err(e) => Err(e)
    case Ok(rules) => Ok(done + rules)
  }

  lemma OnwardsSkip(done: seq<AstRule>, lines: seq<string>)
    requires lines != [] && Skipped(Trim(lines[0]))
    ensures Onwards(done, lines) == Onwards(done, lines[1..])
  {
  }

  lemma OnwardsBad(done: seq<AstRule>, lines: seq<string>)
    requires lines != [] && !Skipped(Trim(lines[0])) && !IsHeader(Trim(lines[0]))
    ensures Onwards(done, lines) == Err(ExpectedRule(Trim(lines[0])))
  {
  }

  lemma OnwardsRule(done: seq<AstRule>, lines: seq<string>)
    requires lines != [] && !Skipped(Trim(lines[0])) && IsHeader(Trim(lines[0]))
    ensures match RuleAt(NameIn(Trim(lines[0])), lines[1..])
            case Err(e) => Onwards(done, lines) == Err(e)
            case Ok((rule, rest)) => Onwards(done, lines) == Onwards(done + [rule], rest)
  {
    var name := NameIn(Trim(lines[0]));
    var at := RuleAt(name, lines[1..]);
    assert ParseLines(lines) == ParseRule(name, lines[1..]);
    assert at.Err? ==> ParseRule(name, lines[1..]) == Err(at.error);
    if at.Ok? && ParseLines(at.value.1).Ok? {
      var rules := ParseLines(at.value.1).value;
      assert done + [at.value.0] + rules == done + ([at.value.0] + rules);
    }
  }

  /** `parse_gpl`. */
  method ParseGpl(text: string) returns (r: Result<seq<AstRule>, Error>)
    ensures r == ParseLines(Lines(text))
  {
    var lines := Lines(text);
    var rules: seq<AstRule>, i := [], 0;
    ghost var goal := ParseLines(lines);
    assert goal.Ok? ==> [] + goal.value == goal.value;
    while i < |lines|
      invariant i <= |lines| && Onwards(rules, lines[i..]) == goal
      decreases |lines| - i
    {
      var line := Trim(lines[i]);
      assert lines[i..][0] == lines[i] && lines[i..][1..] == lines[i + 1..];
      if Skipped(line) {
        OnwardsSkip(rules, lines[i..]);
        i := i + 1;
        continue;
      }
      if !IsHeader(line) {
        OnwardsBad(rules, lines[i..]);
        return Err(ExpectedRule(line));
      }
      OnwardsRule(rules, lines[i..]);
      var rule, next := ParseOne(NameIn(line), lines, i + 1);
      if rule.Err? {
        return Err(rule.error);
      }
      rules, i := rules + [rule.value], next;
    }
    assert rules + [] == rules;
    r := Ok(rules);
  }

  // ---- Text that is not a rule ----------------------------------------------

  /** What a rule must state: the first of the three that no statement gives is reported. */
  lemma MissingIs(name: string, lines: seq<string>)
    requires Body(name, NOTHING, lines).Ok?
    ensures var p, rule := Body(name, NOTHING, lines).value.0, RuleAt(name, lines);
      && (rule == Err(MissingPriority(name)) <==> p.priority == None)
      && (rule == Err(MissingWhen(name)) <==> p.priority.Some? && p.when == None)
      && (rule == Err(MissingPhy(name)) <==> p.priority.Some? && p.when.Some? && p.phy == [])
      && (rule.Ok? <==> p.priority.Some? && p.when.Some? && p.phy != [])
  {
  }

  /** A statement that is none of the three, or has no number for a priority, is an error. */
  lemma StatementFaults(name: string, p: Partial, stmt: string)
    ensures !("priority " <= stmt) && !("when " <= stmt) && !("phy " <= stmt) ==>
              Statement(name, p, stmt) == Err(UnsupportedStatement(name, stmt))
    ensures "priority " <= stmt && ParseI32(Trim(stmt[9..])) == None ==>
              Statement(name, p, stmt) == Err(BadPriority(name))
  {
  }

  /** A field without an equals sign is an error. */
  lemma FieldFaults(acc: Fields, part: string)
    requires Trim(part) != []
    ensures AddField(acc, part) == Err(BadPhyField(Trim(part))) <==> Find(Trim(part), "=") == None
  {
  }
}

/**
 The binary rule file: `encode_gbc2` in src/bin/radnet_tools.rs and
 `load_gbc_bin` in src/bin/raman_portable.rs.
 */
module Gbc2 {
  import opened BinaryFormat
  import opened ByteCodec
  import opened Outcome
  import RuleIr

  const MAGIC: seq<byte> := [0x47, 0x42, 0x43, 0x32] // GBC2

  /** What strings are written as, and which bytes read back. */
  datatype Utf8 = Utf8(encode: string -> seq<byte>, decode: seq<byte> -> Option<string>)

  ghost predicate LawfulUtf8(u: Utf8) {
    forall s: string :: u.decode(u.encode(s)) == Some(s)
  }

  datatype BinValue = Num(bits: RuleIr.Bits) | Bool(truth: bool) | Str(text: string)
  datatype BinPredicate = BinPredicate(field: string, op: byte, value: BinValue)
  datatype Pair = Pair(key: string, value: string)

  /** A rule as it stands in the file, its action values one after the other. */
  datatype BinRule = BinRule(name: string, priority: int, predicates: seq<BinPredicate>, kind: byte, values: seq<Pair>)

  // ---- Layout ---------------------------------------------------------------

  function ReadString(u: Utf8, b: seq<byte>): Read<string> {
    match ReadU16(b)
    case Bad(e) => Bad(e)
    case Got(n, rest) =>
      if |rest| < n then Bad(UnexpectedEof)
      else
        var text := u.decode(rest[..n]);
        if text.None? then Bad(NotUtf8) else Got(text.value, rest[n..])
  }

  /** `put_str` and `read_str`. */
  function StringFormat(u: Utf8): Format<string> {
    Format((s: string) => |u.encode(s)| < 0x1_0000,
           (s: string) => HalfBytes(|u.encode(s)|) + u.encode(s),
           (b: seq<byte>) => ReadString(u, b))
  }

  function ValueOk(u: Utf8, v: BinValue): bool {
    v.Str? ==> StringFormat(u).ok(v.text)
  }

  function WriteValue(u: Utf8, v: BinValue): seq<byte> {
    match v
    case Num(bits) => [0] + bits
    case Bool(truth) => [1] + [if truth then 1 else 0]
    case Str(text) => [2] + StringFormat(u).write(text)
  }

  /** A type byte says how to read on; any code but 0 and 1 stands for a string. */
  function ReadValue(u: Utf8, b: seq<byte>): Read<BinValue> {
    if b == [] then Bad(UnexpectedEof)
    else if b[0] == 0 then
      if |b| < 9 then Bad(UnexpectedEof) else Got(Num(b[1..9]), b[9..])
    else if b[0] == 1 then
      if |b| < 2 then Bad(UnexpectedEof) else Got(Bool(b[1] != 0), b[2..])
    else
      match ReadString(u, b[1..])
      case Bad(e) => Bad(e)
      case Got(text, rest) => Got(Str(text), rest)
  }

  function ValueFormat(u: Utf8): Format<BinValue> {
    Format((v: BinValue) => ValueOk(u, v), (v: BinValue) => WriteValue(u, v), (b: seq<byte>) => ReadValue(u, b))
  }

  function PredicateParts(p: BinPredicate): (string, (byte, BinValue)) {
    (p.field, (p.op, p.value))
  }

  function PredicateOf(p: (string, (byte, BinValue))): BinPredicate {
    BinPredicate(p.0, p.1.0, p.1.1)
  }

  function PredicateFormat(u: Utf8): Format<BinPredicate> {
    As(Both(StringFormat(u), Both(Octet(), ValueFormat(u))), PredicateOf, PredicateParts)
  }

  function PairParts(p: Pair): (string, string) {
    (p.key, p.value)
  }

  function PairOf(p: (string, string)): Pair {
    Pair(p.0, p.1)
  }

  function PairFormat(u: Utf8): Format<Pair> {
    As(Both(StringFormat(u), StringFormat(u)), PairOf, PairParts)
  }

  function RuleParts(r: BinRule): (string, (int, (seq<BinPredicate>, (byte, seq<Pair>)))) {
    (r.name, (r.priority, (r.predicates, (r.kind, r.values))))
  }

  function RuleOf(p: (string, (int, (seq<BinPredicate>, (byte, seq<Pair>))))): BinRule {
    BinRule(p.0, p.1.0, p.1.1.0, p.1.1.1.0, p.1.1.1.1)
  }

  function RuleFormat(u: Utf8): Format<BinRule> {
    As(Both(StringFormat(u), Both(Signed(), Both(CountedBy(HalfWord(), PredicateFormat(u)),
                                                 Both(Octet(), CountedBy(HalfWord(), PairFormat(u)))))),
       RuleOf, RuleParts)
  }

  lemma StringReads(u: Utf8, s: string, rest: seq<byte>)
    requires u.decode(u.encode(s)) == Some(s) && |u.encode(s)| < 0x1_0000
    ensures ReadString(u, HalfBytes(|u.encode(s)|) + u.encode(s) + rest) == Got(s, rest)
  {
    var bytes := u.encode(s);
    assert HalfBytes(|bytes|) + bytes + rest == HalfBytes(|bytes|) + (bytes + rest);
    HalfReads(|bytes|, bytes + rest);
    assert (bytes + rest)[..|bytes|] == bytes && (bytes + rest)[|bytes|..] == rest;
  }

  lemma StringCut(u: Utf8, s: string, cut: nat)
    requires |u.encode(s)| < 0x1_0000 && cut < 2 + |u.encode(s)|
    ensures ReadString(u, (HalfBytes(|u.encode(s)|) + u.encode(s))[..cut]) == Bad(UnexpectedEof)
  {
    var bytes := u.encode(s);
    if cut >= 2 {
      assert (HalfBytes(|bytes|) + bytes)[..cut] == HalfBytes(|bytes|) + bytes[..cut - 2];
      HalfReads(|bytes|, bytes[..cut - 2]);
    }
  }

  lemma StringLawful(u: Utf8)
    requires LawfulUtf8(u)
    ensures Lawful(StringFormat(u))
  {
    var f := StringFormat(u);
    forall s: string, rest: seq<byte>
      ensures InvertsAt(f, s, rest)
    {
      if f.ok(s) {
        StringReads(u, s, rest);
      }
    }
    forall s: string, cut: nat
      ensures RefusesAt(f, s, cut)
    {
      if f.ok(s) && cut < |f.write(s)| {
        StringCut(u, s, cut);
      }
    }
  }

  lemma ValueReads(u: Utf8, v: BinValue, rest: seq<byte>)
    requires LawfulUtf8(u) && ValueOk(u, v)
    ensures ReadValue(u, WriteValue(u, v) + rest) == Got(v, rest)
  {
    var b := WriteValue(u, v) + rest;
    match v
    case Num(bits) => assert b[1..9] == bits && b[9..] == rest;
    case Bool(truth) => assert b[2..] == rest;
    case Str(text) =>
      assert b[1..] == HalfBytes(|u.encode(text)|) + u.encode(text) + rest;
      StringReads(u, text, rest);
  }

  lemma ValueCut(u: Utf8, v: BinValue, cut: nat)
    requires ValueOk(u, v) && cut < |WriteValue(u, v)|
    ensures ReadValue(u, WriteValue(u, v)[..cut]) == Bad(UnexpectedEof)
  {
    if v.Str? && cut > 0 {
      var bytes := HalfBytes(|u.encode(v.text)|) + u.encode(v.text);
      assert WriteValue(u, v)[..cut][1..] == bytes[..cut - 1];
      StringCut(u, v.text, cut - 1);
    }
  }

  lemma ValueLawful(u: Utf8)
    requires LawfulUtf8(u)
    ensures Lawful(ValueFormat(u))
  {
    var f := ValueFormat(u);
    forall v: BinValue, rest: seq<byte>
      ensures InvertsAt(f, v, rest)
    {
      if f.ok(v) {
        ValueReads(u, v, rest);
      }
    }
    forall v: BinValue, cut: nat
      ensures RefusesAt(f, v, cut)
    {
      if f.ok(v) && cut < |f.write(v)| {
        ValueCut(u, v, cut);
      }
    }
  }

  lemma PredicateLawful(u: Utf8)
    requires LawfulUtf8(u)
    ensures Lawful(PredicateFormat(u))
  {
    StringLawful(u);
    OctetLawful();
    ValueLawful(u);
    BothLawful(Octet(), ValueFormat(u));
    BothLawful(StringFormat(u), Both(Octet(), ValueFormat(u)));
    AsLawful(Both(StringFormat(u), Both(Octet(), ValueFormat(u))), PredicateOf, PredicateParts);
  }

  lemma PairLawful(u: Utf8)
    requires LawfulUtf8(u)
    ensures Lawful(PairFormat(u))
  {
    StringLawful(u);
    BothLawful(StringFormat(u), StringFormat(u));
    AsLawful(Both(StringFormat(u), StringFormat(u)), PairOf, PairParts);
  }

  lemma RuleLawful(u: Utf8)
    requires LawfulUtf8(u)
    ensures Lawful(RuleFormat(u))
  {
    StringLawful(u);
    SignedLawful();
    OctetLawful();
    HalfWordLawful();
    PredicateLawful(u);
    PairLawful(u);
    var predicates, values := CountedBy(HalfWord(), PredicateFormat(u)), CountedBy(HalfWord(), PairFormat(u));
    CountedByLawful(HalfWord(), PredicateFormat(u));
    CountedByLawful(HalfWord(), PairFormat(u));
    BothLawful(Octet(), values);
    BothLawful(predicates, Both(Octet(), values));
    BothLawful(Signed(), Both(predicates, Both(Octet(), values)));
    BothLawful(StringFormat(u), Both(Signed(), Both(predicates, Both(Octet(), values))));
    AsLawful(Both(StringFormat(u), Both(Signed(), Both(predicates, Both(Octet(), values)))), RuleOf, RuleParts);
  }

  // ---- Encoding -------------------------------------------------------------

  /** An unknown operator takes the code of `==`. */
  function OpCode(op: RuleIr.Op): byte {
    match op
    case Eq => 0
    case Ne => 1
    case Ge => 2
    case Le => 3
    case Gt => 4
    case Lt => 5
    case OtherOp(_) => 0
  }

  /** Only a number that is no number cannot be written; other mismatches become false or empty. */
  function ToValue(valueType: RuleIr.ValueType, value: RuleIr.Value): Option<BinValue> {
    match valueType
    case Num => if value.Number? then Some(Num(value.bits)) else None
    case Bool => Some(Bool(value.Boolean? && value.truth))
    case _ => Some(Str(if value.Word? then value.text else ""))
  }

  function ToPredicate(p: RuleIr.Predicate): Option<BinPredicate> {
    var value := ToValue(p.valueType, p.value);
    if value.None? then None else Some(BinPredicate(p.field, OpCode(p.op), value.value))
  }

  function ToPredicates(ps: seq<RuleIr.Predicate>): (r: Option<seq<BinPredicate>>)
    ensures r.Some? ==> |r.value| == |ps| && forall k :: 0 <= k < |ps| ==> ToPredicate(ps[k]) == Some(r.value[k])
    ensures r.None? ==> exists k :: 0 <= k < |ps| && ToPredicate(ps[k]).None?
  {
    if ps == [] then Some([])
    else
      var init, last := ToPredicates(ps[..|ps| - 1]), ToPredicate(ps[|ps| - 1]);
      if init.None? || last.None? then None else Some(init.value + [last.value])
  }

  function ToPair(f: (string, string)): Pair {
    Pair(f.0, f.1)
  }

  function ToPairs(values: seq<(string, string)>): (r: seq<Pair>)
    ensures |r| == |values| && forall k :: 0 <= k < |r| ==> r[k] == ToPair(values[k])
  {
    seq(|values|, k requires 0 <= k < |values| => ToPair(values[k]))
  }

  /** Whatever its action, a rule is written with action code 0. */
  function ToBin(r: RuleIr.Rule): Option<BinRule> {
    var predicates := ToPredicates(r.predicates);
    if predicates.None? then None
    else Some(BinRule(r.name, r.priority, predicates.value, 0, ToPairs(r.values)))
  }

  function ToBins(rules: seq<RuleIr.Rule>): (r: Option<seq<BinRule>>)
    ensures r.Some? ==> |r.value| == |rules| && forall k :: 0 <= k < |rules| ==> ToBin(rules[k]) == Some(r.value[k])
    ensures r.None? ==> exists k :: 0 <= k < |rules| && ToBin(rules[k]).None?
  {
    if rules == [] then Some([])
    else
      var init, last := ToBins(rules[..|rules| - 1]), ToBin(rules[|rules| - 1]);
      if init.None? || last.None? then None else Some(init.value + [last.value])
  }

  /** Every rule can be written, and every length fits its 16 bits. */
  predicate Encodable(u: Utf8, rules: seq<RuleIr.Rule>) {
    forall k :: 0 <= k < |rules| ==> RuleEncodable(u, rules[k])
  }

  predicate RuleEncodable(u: Utf8, r: RuleIr.Rule) {
    ToBin(r).Some? && RuleFormat(u).ok(ToBin(r).value)
  }

  /** The bytes of a rule file; the count keeps its low 32 bits. */
  function FileOf(u: Utf8, bins: seq<BinRule>): seq<byte> {
    MAGIC + WordBytes(|bins|) + WriteAll(RuleFormat(u), bins)
  }

  method PutString(u: Utf8, out: seq<byte>, s: string) returns (r: Option<seq<byte>>)
    ensures r == if StringFormat(u).ok(s) then Some(out + StringFormat(u).write(s)) else None
  {
    var raw := u.encode(s);
    if |raw| >= 0x1_0000 {
      return None;
    }
    assert out + HalfBytes(|raw|) + raw == out + (HalfBytes(|raw|) + raw);
    r := Some(out + HalfBytes(|raw|) + raw);
  }

  predicate PredicateEncodable(u: Utf8, p: RuleIr.Predicate) {
    ToPredicate(p).Some? && PredicateFormat(u).ok(ToPredicate(p).value)
  }

  lemma PredicateBytes(u: Utf8, p: BinPredicate)
    ensures PredicateFormat(u).write(p) == StringFormat(u).write(p.field) + ([p.op] + WriteValue(u, p.value))
    ensures PredicateFormat(u).ok(p) <==> StringFormat(u).ok(p.field) && ValueOk(u, p.value)
  {
    AsWrites(Both(StringFormat(u), Both(Octet(), ValueFormat(u))), PredicateOf, PredicateParts, p);
    BothWrites(StringFormat(u), Both(Octet(), ValueFormat(u)), p.field, (p.op, p.value));
    BothWrites(Octet(), ValueFormat(u), p.op, p.value);
  }

  method PutValue(u: Utf8, out: seq<byte>, valueType: RuleIr.ValueType, value: RuleIr.Value)
    returns (r: Option<seq<byte>>)
    ensures r.Some? <==> ToValue(valueType, value).Some? && ValueOk(u, ToValue(valueType, value).value)
    ensures r.Some? ==> r.value == out + WriteValue(u, ToValue(valueType, value).value)
  {
    match valueType
    case Num =>
      if value.Number? {
        assert out + [0] + value.bits == out + ([0] + value.bits);
        r := Some(out + [0] + value.bits);
      } else {
        r := None;
      }
    case Bool =>
      r := Some(out + [1] + [if value.Boolean? && value.truth then 1 else 0]);
    case _ =>
      var text := if value.Word? then value.text else "";
      assert out + [2] + StringFormat(u).write(text) == out + ([2] + StringFormat(u).write(text));
      r := PutString(u, out + [2], text);
  }

  method PutPredicate(u: Utf8, out: seq<byte>, p: RuleIr.Predicate) returns (r: Option<seq<byte>>)
    ensures r.Some? <==> PredicateEncodable(u, p)
    ensures r.Some? ==> r.value == out + PredicateFormat(u).write(ToPredicate(p).value)
  {
    if ToPredicate(p).Some? {
      PredicateBytes(u, ToPredicate(p).value);
    }
    r := PutString(u, out, p.field);
    if r.Some? {
      var head := r.value + [OpCode(p.op)];
      r := PutValue(u, head, p.valueType, p.value);
      if r.Some? {
        var value := WriteValue(u, ToValue(p.valueType, p.value).value);
        assert out + StringFormat(u).write(p.field) + [OpCode(p.op)] + value
            == out + (StringFormat(u).write(p.field) + ([OpCode(p.op)] + value));
      }
    }
  }

  ghost predicate AllEncodable(u: Utf8, ps: seq<RuleIr.Predicate>) {
    forall k :: 0 <= k < |ps| ==> PredicateEncodable(u, ps[k])
  }

  /** `bytes` is `out` with the predicates behind it. */
  ghost predicate Holds(u: Utf8, out: seq<byte>, ps: seq<RuleIr.Predicate>, bytes: seq<byte>) {
    ToPredicates(ps).Some? && bytes == out + WriteAll(PredicateFormat(u), ToPredicates(ps).value)
  }

  lemma HoldsOneMore(u: Utf8, out: seq<byte>, ps: seq<RuleIr.Predicate>, p: RuleIr.Predicate, bytes: seq<byte>)
    requires AllEncodable(u, ps) && Holds(u, out, ps, bytes) && PredicateEncodable(u, p)
    ensures AllEncodable(u, ps + [p])
    ensures Holds(u, out, ps + [p], bytes + PredicateFormat(u).write(ToPredicate(p).value))
  {
    assert (ps + [p])[..|ps|] == ps;
    WriteAllGrows(PredicateFormat(u), out, ToPredicates(ps).value, ToPredicate(p).value);
  }

  lemma HoldsNothing(u: Utf8, out: seq<byte>)
    ensures Holds(u, out, [], out)
  {
    assert WriteAll(PredicateFormat(u), []) == [] && out + [] == out;
  }

  method PutPredicates(u: Utf8, out: seq<byte>, ps: seq<RuleIr.Predicate>) returns (r: Option<seq<byte>>)
    ensures r.Some? <==> AllEncodable(u, ps)
    ensures r.Some? ==> Holds(u, out, ps, r.value)
  {
    var bytes := out;
    HoldsNothing(u, out);
    for i := 0 to |ps|
      invariant AllEncodable(u, ps[..i]) && Holds(u, out, ps[..i], bytes)
    {
      var put := PutPredicate(u, bytes, ps[i]);
      if put.None? {
        return None;
      }
      HoldsOneMore(u, out, ps[..i], ps[i], bytes);
      assert ps[..i + 1] == ps[..i] + [ps[i]];
      bytes := put.value;
    }
    assert ps[..|ps|] == ps;
    r := Some(bytes);
  }

  lemma PairBytes(u: Utf8, p: Pair)
    ensures PairFormat(u).write(p) == StringFormat(u).write(p.key) + StringFormat(u).write(p.value)
    ensures PairFormat(u).ok(p) <==> StringFormat(u).ok(p.key) && StringFormat(u).ok(p.value)
  {
    AsWrites(Both(StringFormat(u), StringFormat(u)), PairOf, PairParts, p);
    BothWrites(StringFormat(u), StringFormat(u), p.key, p.value);
  }

  method PutPair(u: Utf8, out: seq<byte>, f: (string, string)) returns (r: Option<seq<byte>>)
    ensures r == if PairFormat(u).ok(ToPair(f)) then Some(out + PairFormat(u).write(ToPair(f))) else None
  {
    PairBytes(u, ToPair(f));
    r := PutString(u, out, f.0);
    if r.Some? {
      r := PutString(u, r.value, f.1);
      assert out + StringFormat(u).write(f.0) + StringFormat(u).write(f.1)
          == out + (StringFormat(u).write(f.0) + StringFormat(u).write(f.1));
    }
  }

  predicate PairsOk(u: Utf8, values: seq<(string, string)>) {
    forall k :: 0 <= k < |values| ==> PairFormat(u).ok(ToPair(values[k]))
  }

  method PutPairs(u: Utf8, out: seq<byte>, values: seq<(string, string)>) returns (r: Option<seq<byte>>)
    ensures r.Some? <==> PairsOk(u, values)
    ensures r.Some? ==> r.value == out + WriteAll(PairFormat(u), ToPairs(values))
  {
    var bytes := out;
    for i := 0 to |values|
      invariant PairsOk(u, values[..i])
      invariant bytes == out + WriteAll(PairFormat(u), ToPairs(values[..i]))
    {
      var put := PutPair(u, bytes, values[i]);
      if put.None? {
        assert !PairFormat(u).ok(ToPair(values[i]));
        return None;
      }
      assert ToPairs(values[..i + 1]) == ToPairs(values[..i]) + [ToPair(values[i])];
      WriteAllGrows(PairFormat(u), out, ToPairs(values[..i]), ToPair(values[i]));
      bytes := put.value;
    }
    assert values[..|values|] == values;
    r := Some(bytes);
  }

  lemma RuleBytes(u: Utf8, r: BinRule)
    ensures RuleFormat(u).write(r) ==
            StringFormat(u).write(r.name)
            + (Signed().write(r.priority)
               + (CountedBy(HalfWord(), PredicateFormat(u)).write(r.predicates)
                  + ([r.kind] + CountedBy(HalfWord(), PairFormat(u)).write(r.values))))
    ensures RuleFormat(u).ok(r) <==>
            && StringFormat(u).ok(r.name) && Signed().ok(r.priority)
            && CountedBy(HalfWord(), PredicateFormat(u)).ok(r.predicates)
            && CountedBy(HalfWord(), PairFormat(u)).ok(r.values)
  {
    var predicates, values := CountedBy(HalfWord(), PredicateFormat(u)), CountedBy(HalfWord(), PairFormat(u));
    AsWrites(Both(StringFormat(u), Both(Signed(), Both(predicates, Both(Octet(), values)))), RuleOf, RuleParts, r);
    BothWrites(StringFormat(u), Both(Signed(), Both(predicates, Both(Octet(), values))),
               r.name, (r.priority, (r.predicates, (r.kind, r.values))));
    BothWrites(Signed(), Both(predicates, Both(Octet(), values)), r.priority, (r.predicates, (r.kind, r.values)));
    BothWrites(predicates, Both(Octet(), values), r.predicates, (r.kind, r.values));
    BothWrites(Octet(), values, r.kind, r.values);
  }

  /** A rule can be written exactly when its name, its predicates and its values can. */
  lemma RuleEncodableIff(u: Utf8, r: RuleIr.Rule)
    requires -0x8000_0000 <= r.priority < 0x8000_0000
    ensures RuleEncodable(u, r) <==>
            && StringFormat(u).ok(r.name) && |r.predicates| < 0x1_0000 && AllEncodable(u, r.predicates)
            && |r.values| < 0x1_0000 && PairsOk(u, r.values)
  {
    if ToBin(r).Some? {
      RuleBytes(u, ToBin(r).value);
    }
  }

  lemma CountedWrite<T>(f: Format<T>, xs: seq<T>)
    ensures CountedBy(HalfWord(), f).write(xs) == HalfBytes(|xs|) + WriteAll(f, xs)
  {
  }

  lemma RuleRegroup(out: seq<byte>, name: seq<byte>, priority: seq<byte>, n: seq<byte>, predicates: seq<byte>,
                    kind: seq<byte>, m: seq<byte>, values: seq<byte>)
    ensures out + name + priority + n + predicates + kind + m + values ==
            out + (name + (priority + ((n + predicates) + (kind + (m + values)))))
  {
    assert out + name + priority + n + predicates + kind + (m + values)
        == out + name + priority + n + predicates + kind + m + values;
    assert out + name + priority + n + predicates + (kind + (m + values))
        == out + name + priority + n + predicates + kind + (m + values);
    assert out + name + priority + ((n + predicates) + (kind + (m + values)))
        == out + name + priority + n + predicates + (kind + (m + values));
  }

  /** Writes one rule, unless something in it is too long for its 16-bit length. */
  method PutRule(u: Utf8, out: seq<byte>, r: RuleIr.Rule) returns (put: Option<seq<byte>>)
    requires -0x8000_0000 <= r.priority < 0x8000_0000
    ensures put.Some? <==> RuleEncodable(u, r)
    ensures put.Some? ==> put.value == out + RuleFormat(u).write(ToBin(r).value)
  {
    RuleEncodableIff(u, r);
    put := PutString(u, out, r.name);
    if put.None? || |r.predicates| >= 0x1_0000 {
      return None;
    }
    var head := put.value + Signed().write(r.priority) + HalfBytes(|r.predicates|);
    put := PutPredicates(u, head, r.predicates);
    if put.None? || |r.values| >= 0x1_0000 {
      return None;
    }
    var middle := put.value + [0] + HalfBytes(|r.values|);
    put := PutPairs(u, middle, r.values);
    if put.Some? {
      var b := ToBin(r).value;
      RuleBytes(u, b);
      CountedWrite(PredicateFormat(u), b.predicates);
      CountedWrite(PairFormat(u), b.values);
      RuleRegroup(out, StringFormat(u).write(r.name), Signed().write(r.priority), HalfBytes(|r.predicates|),
                  WriteAll(PredicateFormat(u), b.predicates), [0], HalfBytes(|r.values|),
                  WriteAll(PairFormat(u), b.values));
    }
  }

  /** Priorities are 32-bit integers. */
  ghost predicate Priorities32(rules: seq<RuleIr.Rule>) {
    forall k :: 0 <= k < |rules| ==> -0x8000_0000 <= rules[k].priority < 0x8000_0000
  }

  ghost predicate FileHolds(u: Utf8, head: seq<byte>, rules: seq<RuleIr.Rule>, bytes: seq<byte>) {
    Encodable(u, rules) && ToBins(rules).Some? && bytes == head + WriteAll(RuleFormat(u), ToBins(rules).value)
  }

  lemma BinsAppend(rules: seq<RuleIr.Rule>, r: RuleIr.Rule)
    requires ToBins(rules).Some? && ToBin(r).Some?
    ensures ToBins(rules + [r]) == Some(ToBins(rules).value + [ToBin(r).value])
  {
    assert (rules + [r])[..|rules|] == rules;
  }

  lemma EncodableAppend(u: Utf8, rules: seq<RuleIr.Rule>, r: RuleIr.Rule)
    requires Encodable(u, rules) && RuleEncodable(u, r)
    ensures Encodable(u, rules + [r])
  {
  }

  lemma FileHoldsOneMore(u: Utf8, head: seq<byte>, rules: seq<RuleIr.Rule>, r: RuleIr.Rule, bytes: seq<byte>)
    requires FileHolds(u, head, rules, bytes) && RuleEncodable(u, r)
    ensures FileHolds(u, head, rules + [r], bytes + RuleFormat(u).write(ToBin(r).value))
  {
    BinsAppend(rules, r);
    EncodableAppend(u, rules, r);
    WriteAllGrows(RuleFormat(u), head, ToBins(rules).value, ToBin(r).value);
  }

  lemma FileHoldsNothing(u: Utf8, head: seq<byte>)
    ensures FileHolds(u, head, [], head)
  {
    assert WriteAll(RuleFormat(u), []) == [] && head + [] == head;
  }

  /** The loop of `encode_gbc2`. */
  method PutRules(u: Utf8, head: seq<byte>, rules: seq<RuleIr.Rule>) returns (r: Option<seq<byte>>)
    requires Priorities32(rules)
    ensures r.Some? <==> Encodable(u, rules)
    ensures r.Some? ==> FileHolds(u, head, rules, r.value)
  {
    var bytes := head;
    FileHoldsNothing(u, head);
    for i := 0 to |rules|
      invariant FileHolds(u, head, rules[..i], bytes)
    {
      var put := PutRule(u, bytes, rules[i]);
      if put.None? {
        return None;
      }
      FileHoldsOneMore(u, head, rules[..i], rules[i], bytes);
      assert rules[..i + 1] == rules[..i] + [rules[i]];
      bytes := put.value;
    }
    assert rules[..|rules|] == rules;
    r := Some(bytes);
  }

  /** `encode_gbc2`: fails exactly when some rule cannot be written. */
  method EncodeGbc2(u: Utf8, rules: seq<RuleIr.Rule>) returns (r: Option<seq<byte>>)
    requires Priorities32(rules)
    ensures r.Some? <==> Encodable(u, rules)
    ensures r.Some? ==> ToBins(rules).Some? && r.value == FileOf(u, ToBins(rules).value)
  {
    r := PutRules(u, MAGIC + WordBytes(|rules|), rules);
  }

  // ---- Loading --------------------------------------------------------------

  /** A loaded rule looks its action values up by key. */
  datatype LoadedRule = LoadedRule(
    name: string, priority: int, predicates: seq<BinPredicate>, kind: byte, values: map<string, string>)

  datatype LoadError = TooShort | BadMagic | Unreadable(error: ReadError)
  datatype Loaded = Rules(rules: seq<LoadedRule>) | NotLoaded(error: LoadError)

  /** Later entries overwrite earlier ones with their key. */
  function MapOf(values: seq<Pair>): map<string, string> {
    if values == [] then map[]
    else MapOf(values[..|values| - 1])[values[|values| - 1].key := values[|values| - 1].value]
  }

  function ToLoaded(b: BinRule): LoadedRule {
    LoadedRule(b.name, b.priority, b.predicates, b.kind, MapOf(b.values))
  }

  function AllLoaded(bins: seq<BinRule>): (r: seq<LoadedRule>)
    ensures |r| == |bins| && forall k :: 0 <= k < |r| ==> r[k] == ToLoaded(bins[k])
  {
    seq(|bins|, k requires 0 <= k < |bins| => ToLoaded(bins[k]))
  }

  function LoadWith(f: Format<BinRule>, raw: seq<byte>): Loaded {
    if |raw| < 8 then NotLoaded(TooShort)
    else if raw[..4] != MAGIC then NotLoaded(BadMagic)
    else
      match Counted(f).read(raw[4..])
      case Bad(e) => NotLoaded(Unreadable(e))
      case Got(bins, _) => Rules(AllLoaded(bins))
  }

  /** What `load_gbc_bin` makes of a file; bytes behind the last rule are ignored. */
  function Load(u: Utf8, raw: seq<byte>): Loaded {
    LoadWith(RuleFormat(u), raw)
  }

  method InsertAll(values: seq<Pair>) returns (m: map<string, string>)
    ensures m == MapOf(values)
  {
    m := map[];
    for i := 0 to |values|
      invariant m == MapOf(values[..i])
    {
      assert values[..i + 1][..i] == values[..i];
      m := m[values[i].key := values[i].value];
    }
    assert values[..|values|] == values;
  }

  /** The loop of `load_gbc_bin`. */
  method ConvertRules(bins: seq<BinRule>) returns (rules: seq<LoadedRule>)
    ensures rules == AllLoaded(bins)
  {
    rules := [];
    for i := 0 to |bins|
      invariant rules == AllLoaded(bins[..i])
    {
      var b := bins[i];
      var values := InsertAll(b.values);
      rules := rules + [LoadedRule(b.name, b.priority, b.predicates, b.kind, values)];
    }
    assert bins[..|bins|] == bins;
  }

  /** `load_gbc_bin`. */
  method LoadGbc2(u: Utf8, raw: seq<byte>) returns (r: Loaded)
    ensures r == Load(u, raw)
  {
    if |raw| < 8 {
      return NotLoaded(TooShort);
    }
    if raw[..4] != MAGIC {
      return NotLoaded(BadMagic);
    }
    var bins := TakeCounted(Word(), RuleFormat(u), raw[4..]);
    if bins.Bad? {
      return NotLoaded(Unreadable(bins.error));
    }
    var rules := ConvertRules(bins.value);
    r := Rules(rules);
  }

  // ---- Round trip and truncation --------------------------------------------

  function FileWith(f: Format<BinRule>, bins: seq<BinRule>): seq<byte> {
    MAGIC + Counted(f).write(bins)
  }

  lemma FileIs(u: Utf8, bins: seq<BinRule>)
    ensures FileOf(u, bins) == FileWith(RuleFormat(u), bins)
  {
    assert FileOf(u, bins) == MAGIC + (WordBytes(|bins|) + WriteAll(RuleFormat(u), bins));
  }

  lemma LoadWithUndoes(f: Format<BinRule>, bins: seq<BinRule>, rest: seq<byte>)
    requires Lawful(f) && Counted(f).ok(bins)
    ensures LoadWith(f, FileWith(f, bins) + rest) == Rules(AllLoaded(bins))
  {
    var body := Counted(f).write(bins) + rest;
    CountedLawful(f);
    assert FileWith(f, bins) + rest == MAGIC + body;
    assert (MAGIC + body)[..4] == MAGIC && (MAGIC + body)[4..] == body;
    assert InvertsAt(Counted(f), bins, rest);
  }

  lemma LoadWithCut(f: Format<BinRule>, bins: seq<BinRule>, cut: nat)
    requires Lawful(f) && Counted(f).ok(bins) && cut < |FileWith(f, bins)|
    ensures LoadWith(f, FileWith(f, bins)[..cut]) ==
            NotLoaded(if cut < 8 then TooShort else Unreadable(UnexpectedEof))
  {
    CountedLawful(f);
    if cut >= 8 {
      var body := Counted(f).write(bins)[..cut - 4];
      assert FileWith(f, bins)[..cut] == MAGIC + body;
      assert (MAGIC + body)[..4] == MAGIC && (MAGIC + body)[4..] == body;
      assert RefusesAt(Counted(f), bins, cut - 4);
    }
  }

  lemma BinsOk(u: Utf8, rules: seq<RuleIr.Rule>)
    requires Encodable(u, rules) && |rules| < 0x1_0000_0000
    ensures ToBins(rules).Some? && Counted(RuleFormat(u)).ok(ToBins(rules).value)
  {
    assert ToBins(rules).Some?;
    forall k | 0 <= k < |rules|
      ensures RuleFormat(u).ok(ToBins(rules).value[k])
    {
      assert RuleEncodable(u, rules[k]);
    }
  }

  /** Loading an encoded rule list gives its rules back, whatever bytes follow. */
  lemma LoadUndoesEncode(u: Utf8, rules: seq<RuleIr.Rule>, rest: seq<byte>)
    requires LawfulUtf8(u) && Encodable(u, rules) && |rules| < 0x1_0000_0000
    ensures ToBins(rules).Some?
    ensures Load(u, FileOf(u, ToBins(rules).value) + rest) == Rules(AllLoaded(ToBins(rules).value))
  {
    BinsOk(u, rules);
    RuleLawful(u);
    FileIs(u, ToBins(rules).value);
    LoadWithUndoes(RuleFormat(u), ToBins(rules).value, rest);
  }

  /** No truncated rule file loads. */
  lemma PrefixNotLoaded(u: Utf8, rules: seq<RuleIr.Rule>, cut: nat)
    requires LawfulUtf8(u) && Encodable(u, rules) && |rules| < 0x1_0000_0000
    requires ToBins(rules).Some? && cut < |FileOf(u, ToBins(rules).value)|
    ensures Load(u, FileOf(u, ToBins(rules).value)[..cut]) ==
            NotLoaded(if cut < 8 then TooShort else Unreadable(UnexpectedEof))
  {
    BinsOk(u, rules);
    RuleLawful(u);
    FileIs(u, ToBins(rules).value);
    LoadWithCut(RuleFormat(u), ToBins(rules).value, cut);
  }
}

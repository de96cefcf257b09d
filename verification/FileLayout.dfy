/**
 The bytes of the three binary files, laid out in full: the rule file of
 src/bin/radnet_tools.rs, and the Raman artifact of src/raman.rs. Each is read
 against numbers written with their least significant byte first.
 */
module FileLayout {
  import opened BinaryFormat
  import opened ByteCodec
  import opened Outcome
  import A = RamanArtifact
  import G = Gbc2
  import RuleIr

  // ---- Numbers and lists ----------------------------------------------------

  /** The low `width` bytes of a number, the least significant first. */
  function Le(x: nat, width: nat): (r: seq<byte>)
    ensures |r| == width
  {
    if width == 0 then [] else [x % 256] + Le(x / 256, width - 1)
  }

  /** A negative number as its two's complement. */
  function LeSigned(x: int): seq<byte>
    requires Fit32(x)
  {
    Le(if x < 0 then x + 0x1_0000_0000 else x, 4)
  }

  lemma LeDigits(x: nat)
    ensures Le(x, 2) == [x % 256, x / 256 % 256]
    ensures Le(x, 4) == [x % 256, x / 256 % 256, x / 65536 % 256, x / 16777216 % 256]
  {
    assert x / 256 / 256 == x / 65536 && x / 65536 / 256 == x / 16777216;
    assert Le(x / 16777216, 1) == [x / 16777216 % 256];
    assert Le(x / 65536, 2) == [x / 65536 % 256] + Le(x / 16777216, 1);
    assert Le(x / 256, 3) == [x / 256 % 256] + Le(x / 65536, 2);
    assert Le(x / 256, 1) == [x / 256 % 256];
  }

  lemma WordIs(n: nat)
    requires n < 0x1_0000_0000
    ensures WordBytes(n) == Le(n, 4)
  {
    LeDigits(n);
  }

  lemma HalfIs(n: nat)
    requires n < 0x1_0000
    ensures HalfBytes(n) == Le(n, 2)
  {
    LeDigits(n);
  }

  lemma SignedIs(z: int)
    requires Fit32(z)
    ensures Signed().write(z) == LeSigned(z)
  {
    WordIs(if z < 0 then z + 0x1_0000_0000 else z);
  }

  predicate Fit32(x: int) {
    -0x8000_0000 <= x < 0x8000_0000
  }

  /** What four bytes with the least significant first read as. */
  lemma {:induction false} LeReads(b: seq<byte>)
    requires |b| == 4
    ensures U32Of(b) == b[0] as int + 256 * (b[1] as int + 256 * (b[2] as int + 256 * (b[3] as int)))
  {
  }

  /** A list laid out item by item. */
  function Laid<T>(xs: seq<T>, item: T -> seq<byte>): seq<byte> {
    if xs == [] then [] else item(xs[0]) + Laid(xs[1..], item)
  }

  lemma {:induction false} WriteAllIs<T>(f: Format<T>, xs: seq<T>, item: T -> seq<byte>)
    requires forall k :: 0 <= k < |xs| ==> f.write(xs[k]) == item(xs[k])
    ensures WriteAll(f, xs) == Laid(xs, item)
  {
    if xs != [] {
      WriteAllIs(f, xs[1..], item);
    }
  }

  /** A list behind its length in `width` bytes. */
  function Listed<T>(width: nat, xs: seq<T>, item: T -> seq<byte>): seq<byte> {
    Le(|xs|, width) + Laid(xs, item)
  }

  lemma CountedIs<T>(f: Format<T>, xs: seq<T>, item: T -> seq<byte>)
    requires |xs| < 0x1_0000_0000 && forall k :: 0 <= k < |xs| ==> f.write(xs[k]) == item(xs[k])
    ensures Counted(f).write(xs) == Listed(4, xs, item)
  {
    WordIs(|xs|);
    WriteAllIs(f, xs, item);
  }

  lemma CountedByIs<T>(f: Format<T>, xs: seq<T>, item: T -> seq<byte>)
    requires |xs| < 0x1_0000 && forall k :: 0 <= k < |xs| ==> f.write(xs[k]) == item(xs[k])
    ensures CountedBy(HalfWord(), f).write(xs) == Listed(2, xs, item)
  {
    HalfIs(|xs|);
    WriteAllIs(f, xs, item);
  }

  // ---- Formats of several parts ---------------------------------------------

  lemma Writes3<A, B, C>(f: Format<A>, g: Format<B>, h: Format<C>, x: A, y: B, z: C)
    ensures Both(f, Both(g, h)).write((x, (y, z))) == f.write(x) + g.write(y) + h.write(z)
    ensures Both(f, Both(g, h)).ok((x, (y, z))) <==> f.ok(x) && g.ok(y) && h.ok(z)
  {
    BothWrites(f, Both(g, h), x, (y, z));
    BothWrites(g, h, y, z);
    assert f.write(x) + (g.write(y) + h.write(z)) == f.write(x) + g.write(y) + h.write(z);
  }

  lemma Writes4<A, B, C, D>(f: Format<A>, g: Format<B>, h: Format<C>, i: Format<D>, x: A, y: B, z: C, w: D)
    ensures Both(f, Both(g, Both(h, i))).write((x, (y, (z, w)))) == f.write(x) + g.write(y) + h.write(z) + i.write(w)
    ensures Both(f, Both(g, Both(h, i))).ok((x, (y, (z, w)))) <==> f.ok(x) && g.ok(y) && h.ok(z) && i.ok(w)
  {
    BothWrites(f, Both(g, Both(h, i)), x, (y, (z, w)));
    Writes3(g, h, i, y, z, w);
    assert f.write(x) + (g.write(y) + h.write(z) + i.write(w)) == f.write(x) + g.write(y) + h.write(z) + i.write(w);
  }

  lemma Writes5<A, B, C, D, E>(
    f: Format<A>, g: Format<B>, h: Format<C>, i: Format<D>, j: Format<E>, x: A, y: B, z: C, w: D, v: E)
    ensures Both(f, Both(g, Both(h, Both(i, j)))).write((x, (y, (z, (w, v)))))
         == f.write(x) + g.write(y) + h.write(z) + i.write(w) + j.write(v)
    ensures Both(f, Both(g, Both(h, Both(i, j)))).ok((x, (y, (z, (w, v)))))
            <==> f.ok(x) && g.ok(y) && h.ok(z) && i.ok(w) && j.ok(v)
  {
    BothWrites(f, Both(g, Both(h, Both(i, j))), x, (y, (z, (w, v))));
    Writes4(g, h, i, j, y, z, w, v);
    assert f.write(x) + (g.write(y) + h.write(z) + i.write(w) + j.write(v))
        == f.write(x) + g.write(y) + h.write(z) + i.write(w) + j.write(v);
  }

  lemma CountedOk<T>(f: Format<T>, xs: seq<T>)
    ensures Counted(f).ok(xs) <==> |xs| < 0x1_0000_0000 && forall k :: 0 <= k < |xs| ==> f.ok(xs[k])
  {
  }

  lemma CountedByOk<T>(f: Format<T>, xs: seq<T>)
    ensures CountedBy(HalfWord(), f).ok(xs) <==> |xs| < 0x1_0000 && forall k :: 0 <= k < |xs| ==> f.ok(xs[k])
  {
  }

  // ---- The rule file --------------------------------------------------------

  /** A string behind the length of its UTF-8 in two bytes. */
  function GplString(u: G.Utf8, s: string): seq<byte> {
    Le(|u.encode(s)|, 2) + u.encode(s)
  }

  function GplValue(u: G.Utf8, v: G.BinValue): seq<byte> {
    match v
    case Num(bits) => [0] + bits
    case Bool(truth) => [1, if truth then 1 else 0]
    case Str(text) => [2] + GplString(u, text)
  }

  function GplPredicate(u: G.Utf8): G.BinPredicate -> seq<byte> {
    (p: G.BinPredicate) => GplString(u, p.field) + [p.op] + GplValue(u, p.value)
  }

  function GplPair(u: G.Utf8): G.Pair -> seq<byte> {
    (p: G.Pair) => GplString(u, p.key) + GplString(u, p.value)
  }

  function GplRule(u: G.Utf8): G.BinRule -> seq<byte> {
    (r: G.BinRule) =>
      if Fit32(r.priority) then
        GplString(u, r.name) + LeSigned(r.priority) + Listed(2, r.predicates, GplPredicate(u))
        + [r.kind] + Listed(2, r.values, GplPair(u))
      else []
  }

  lemma GplStringIs(u: G.Utf8, s: string)
    requires G.StringFormat(u).ok(s)
    ensures G.StringFormat(u).write(s) == GplString(u, s)
  {
    HalfIs(|u.encode(s)|);
  }

  lemma GplValueIs(u: G.Utf8, v: G.BinValue)
    requires G.ValueFormat(u).ok(v)
    ensures G.ValueFormat(u).write(v) == GplValue(u, v)
  {
    if v.Str? {
      GplStringIs(u, v.text);
    }
  }

  lemma GplPredicateIs(u: G.Utf8, p: G.BinPredicate)
    requires G.PredicateFormat(u).ok(p)
    ensures G.PredicateFormat(u).write(p) == GplPredicate(u)(p)
  {
    AsWrites(Both(G.StringFormat(u), Both(Octet(), G.ValueFormat(u))), G.PredicateOf, G.PredicateParts, p);
    Writes3(G.StringFormat(u), Octet(), G.ValueFormat(u), p.field, p.op, p.value);
    GplStringIs(u, p.field);
    GplValueIs(u, p.value);
  }

  lemma GplPairIs(u: G.Utf8, p: G.Pair)
    requires G.PairFormat(u).ok(p)
    ensures G.PairFormat(u).write(p) == GplPair(u)(p)
  {
    AsWrites(Both(G.StringFormat(u), G.StringFormat(u)), G.PairOf, G.PairParts, p);
    BothWrites(G.StringFormat(u), G.StringFormat(u), p.key, p.value);
    GplStringIs(u, p.key);
    GplStringIs(u, p.value);
  }

  lemma GplPredicatesAre(u: G.Utf8, ps: seq<G.BinPredicate>)
    requires CountedBy(HalfWord(), G.PredicateFormat(u)).ok(ps)
    ensures CountedBy(HalfWord(), G.PredicateFormat(u)).write(ps) == Listed(2, ps, GplPredicate(u))
  {
    CountedByOk(G.PredicateFormat(u), ps);
    forall k | 0 <= k < |ps|
      ensures G.PredicateFormat(u).write(ps[k]) == GplPredicate(u)(ps[k])
    {
      GplPredicateIs(u, ps[k]);
    }
    CountedByIs(G.PredicateFormat(u), ps, GplPredicate(u));
  }

  lemma GplPairsAre(u: G.Utf8, values: seq<G.Pair>)
    requires CountedBy(HalfWord(), G.PairFormat(u)).ok(values)
    ensures CountedBy(HalfWord(), G.PairFormat(u)).write(values) == Listed(2, values, GplPair(u))
  {
    CountedByOk(G.PairFormat(u), values);
    forall k | 0 <= k < |values|
      ensures G.PairFormat(u).write(values[k]) == GplPair(u)(values[k])
    {
      GplPairIs(u, values[k]);
    }
    CountedByIs(G.PairFormat(u), values, GplPair(u));
  }

  lemma GplRuleParts(u: G.Utf8, predicates: Format<seq<G.BinPredicate>>, values: Format<seq<G.Pair>>, r: G.BinRule)
    requires predicates == CountedBy(HalfWord(), G.PredicateFormat(u))
    requires values == CountedBy(HalfWord(), G.PairFormat(u))
    ensures G.RuleFormat(u).write(r) == G.StringFormat(u).write(r.name) + Signed().write(r.priority)
                                        + predicates.write(r.predicates) + [r.kind] + values.write(r.values)
    ensures G.RuleFormat(u).ok(r) ==> G.StringFormat(u).ok(r.name) && Fit32(r.priority)
                                      && predicates.ok(r.predicates) && values.ok(r.values)
  {
    var strings := G.StringFormat(u);
    AsWrites(Both(strings, Both(Signed(), Both(predicates, Both(Octet(), values)))), G.RuleOf, G.RuleParts, r);
    Writes5(strings, Signed(), predicates, Octet(), values, r.name, r.priority, r.predicates, r.kind, r.values);
  }

  lemma GplRuleIs(u: G.Utf8, r: G.BinRule)
    requires G.RuleFormat(u).ok(r)
    ensures G.RuleFormat(u).write(r) == GplRule(u)(r)
  {
    var predicates, values := CountedBy(HalfWord(), G.PredicateFormat(u)), CountedBy(HalfWord(), G.PairFormat(u));
    GplRuleParts(u, predicates, values, r);
    GplStringIs(u, r.name);
    SignedIs(r.priority);
    GplPredicatesAre(u, r.predicates);
    GplPairsAre(u, r.values);
  }

  /** The rule file: `GBC2`, the number of rules in four bytes, and the rules. */
  lemma RuleFileIs(u: G.Utf8, bins: seq<G.BinRule>)
    requires |bins| < 0x1_0000_0000 && forall k :: 0 <= k < |bins| ==> G.RuleFormat(u).ok(bins[k])
    ensures G.FileOf(u, bins) == [0x47, 0x42, 0x43, 0x32] + Listed(4, bins, GplRule(u))
  {
    forall k | 0 <= k < |bins|
      ensures G.RuleFormat(u).write(bins[k]) == GplRule(u)(bins[k])
    {
      GplRuleIs(u, bins[k]);
    }
    WordIs(|bins|);
    WriteAllIs(G.RuleFormat(u), bins, GplRule(u));
  }

  /** What a rule is written as: the place of its operators among the six, its values by kind, action code zero. */
  lemma WrittenRuleIs(r: RuleIr.Rule, k: nat)
    requires G.ToBin(r).Some? && k < |r.predicates|
    ensures var bin, p := G.ToBin(r).value, r.predicates[k];
            && bin.name == r.name && bin.priority == r.priority && bin.kind == 0
            && |bin.predicates| == |r.predicates| && bin.predicates[k].field == p.field
            && (p.op == RuleIr.Eq ==> bin.predicates[k].op == 0) && (p.op == RuleIr.Ne ==> bin.predicates[k].op == 1)
            && (p.op == RuleIr.Ge ==> bin.predicates[k].op == 2) && (p.op == RuleIr.Le ==> bin.predicates[k].op == 3)
            && (p.op == RuleIr.Gt ==> bin.predicates[k].op == 4) && (p.op == RuleIr.Lt ==> bin.predicates[k].op == 5)
            && (p.valueType.Num? && p.value.Number? ==> bin.predicates[k].value == G.Num(p.value.bits))
            && (p.valueType.Bool? && p.value.Boolean? ==> bin.predicates[k].value == G.Bool(p.value.truth))
            && (p.valueType.Str? && p.value.Word? ==> bin.predicates[k].value == G.Str(p.value.text))
    ensures |G.ToBin(r).value.values| == |r.values|
            && forall j :: 0 <= j < |r.values| ==>
                 G.ToBin(r).value.values[j] == G.Pair(r.values[j].0, r.values[j].1)
  {
    assert G.ToPredicate(r.predicates[k]) == Some(G.ToBin(r).value.predicates[k]);
  }

  // ---- The artifact ---------------------------------------------------------

  /** A string behind its length in four bytes. */
  function Str(s: A.Str): seq<byte> {
    Le(|s|, 4) + s
  }

  function StrItem(): A.Str -> seq<byte> {
    (s: A.Str) => Str(s)
  }

  function PairItem(): A.Pair -> seq<byte> {
    (p: A.Pair) => Str(p.key) + Str(p.value)
  }

  function RuleIrItem(): A.RuleIr -> seq<byte> {
    (r: A.RuleIr) =>
      if Fit32(r.priority) then
        LeSigned(r.priority) + Le(r.order, 4) + Str(r.actionKind) + Listed(4, r.exactFilters, PairItem())
      else []
  }

  function PredicateItem(): A.Predicate -> seq<byte> {
    (p: A.Predicate) => Str(p.field) + Str(p.op) + Str(p.value)
  }

  function ExecutableItem(): A.ExecutableRule -> seq<byte> {
    (r: A.ExecutableRule) =>
      if Fit32(r.priority) then
        LeSigned(r.priority) + Le(r.order, 4) + Listed(4, r.predicates, PredicateItem())
        + Str(r.kind) + Listed(4, r.values, PairItem())
      else []
  }

  function AbiPredicateItem(): A.AbiPredicate -> seq<byte> {
    (p: A.AbiPredicate) => Le(p.fieldId, 4) + Le(p.opId, 4) + Le(p.valueId, 4)
  }

  function AbiValueItem(): A.AbiValue -> seq<byte> {
    (v: A.AbiValue) => Le(v.keyId, 4) + Le(v.valueId, 4)
  }

  function AbiRuleItem(): A.AbiRule -> seq<byte> {
    (r: A.AbiRule) =>
      if Fit32(r.priority) then
        LeSigned(r.priority) + Le(r.order, 4) + Listed(4, r.predicates, AbiPredicateItem())
        + Le(r.actionId, 4) + Listed(4, r.values, AbiValueItem())
      else []
  }

  function MetadataBytes(m: A.Metadata): seq<byte> {
    Str(m.artifactVersion) + Str(m.sourceKind) + Str(m.sourceName) + Str(m.target) + Str(m.runtime)
  }

  function ProgramBytes(ir: A.ProgramIr): seq<byte> {
    Le(ir.totalRules, 4) + Listed(4, ir.indexedFields, StrItem()) + Listed(4, ir.rules, RuleIrItem())
  }

  function ArtifactBytes(a: A.Artifact): seq<byte> {
    [0x52, 0x41, 0x4D, 0x41, 0x4E, 0x42, 0x31, 0x0A]
    + (MetadataBytes(a.body.metadata) + Str(a.body.compiledRpl) + ProgramBytes(a.body.ir)
       + Listed(4, a.body.executable, ExecutableItem()))
    + (Str(a.deviceAbi.version) + Listed(4, a.deviceAbi.rules, AbiRuleItem()))
  }

  lemma StrIs(utf8: seq<byte> -> bool, s: A.Str)
    requires Text(utf8).ok(s)
    ensures Text(utf8).write(s) == Str(s)
  {
    WordIs(|s|);
  }

  lemma StringsAre(utf8: seq<byte> -> bool, xs: seq<A.Str>)
    requires Counted(Text(utf8)).ok(xs)
    ensures Counted(Text(utf8)).write(xs) == Listed(4, xs, StrItem())
  {
    CountedOk(Text(utf8), xs);
    forall k | 0 <= k < |xs|
      ensures Text(utf8).write(xs[k]) == StrItem()(xs[k])
    {
      StrIs(utf8, xs[k]);
    }
    CountedIs(Text(utf8), xs, StrItem());
  }

  lemma PairIs(utf8: seq<byte> -> bool, p: A.Pair)
    requires A.PairFormat(utf8).ok(p)
    ensures A.PairFormat(utf8).write(p) == PairItem()(p)
  {
    AsWrites(Both(Text(utf8), Text(utf8)), A.PairOf, A.PairParts, p);
    BothWrites(Text(utf8), Text(utf8), p.key, p.value);
    StrIs(utf8, p.key);
    StrIs(utf8, p.value);
  }

  lemma PairsAre(utf8: seq<byte> -> bool, ps: seq<A.Pair>)
    requires Counted(A.PairFormat(utf8)).ok(ps)
    ensures Counted(A.PairFormat(utf8)).write(ps) == Listed(4, ps, PairItem())
  {
    CountedOk(A.PairFormat(utf8), ps);
    forall k | 0 <= k < |ps|
      ensures A.PairFormat(utf8).write(ps[k]) == PairItem()(ps[k])
    {
      PairIs(utf8, ps[k]);
    }
    CountedIs(A.PairFormat(utf8), ps, PairItem());
  }

  lemma RuleIrParts(utf8: seq<byte> -> bool, pairs: Format<seq<A.Pair>>, r: A.RuleIr)
    requires pairs == Counted(A.PairFormat(utf8))
    ensures A.RuleIrFormat(utf8).write(r) == Signed().write(r.priority) + WordBytes(r.order)
                                             + Text(utf8).write(r.actionKind) + pairs.write(r.exactFilters)
    ensures A.RuleIrFormat(utf8).ok(r) ==>
              Fit32(r.priority) && r.order < U32 && Text(utf8).ok(r.actionKind) && pairs.ok(r.exactFilters)
  {
    AsWrites(Both(Signed(), Both(Word(), Both(Text(utf8), pairs))), A.RuleIrOf, A.RuleIrParts, r);
    Writes4(Signed(), Word(), Text(utf8), pairs, r.priority, r.order, r.actionKind, r.exactFilters);
  }

  lemma RuleIrIs(utf8: seq<byte> -> bool, r: A.RuleIr)
    requires A.RuleIrFormat(utf8).ok(r)
    ensures A.RuleIrFormat(utf8).write(r) == RuleIrItem()(r)
  {
    RuleIrParts(utf8, Counted(A.PairFormat(utf8)), r);
    SignedIs(r.priority);
    WordIs(r.order);
    StrIs(utf8, r.actionKind);
    PairsAre(utf8, r.exactFilters);
  }

  lemma RuleIrsAre(utf8: seq<byte> -> bool, rules: seq<A.RuleIr>)
    requires Counted(A.RuleIrFormat(utf8)).ok(rules)
    ensures Counted(A.RuleIrFormat(utf8)).write(rules) == Listed(4, rules, RuleIrItem())
  {
    CountedOk(A.RuleIrFormat(utf8), rules);
    forall k | 0 <= k < |rules|
      ensures A.RuleIrFormat(utf8).write(rules[k]) == RuleIrItem()(rules[k])
    {
      RuleIrIs(utf8, rules[k]);
    }
    CountedIs(A.RuleIrFormat(utf8), rules, RuleIrItem());
  }

  lemma PredicateIs(utf8: seq<byte> -> bool, p: A.Predicate)
    requires A.PredicateFormat(utf8).ok(p)
    ensures A.PredicateFormat(utf8).write(p) == PredicateItem()(p)
  {
    AsWrites(Both(Text(utf8), Both(Text(utf8), Text(utf8))), A.PredicateOf, A.PredicateParts, p);
    Writes3(Text(utf8), Text(utf8), Text(utf8), p.field, p.op, p.value);
    StrIs(utf8, p.field);
    StrIs(utf8, p.op);
    StrIs(utf8, p.value);
  }

  lemma PredicatesAre(utf8: seq<byte> -> bool, ps: seq<A.Predicate>)
    requires Counted(A.PredicateFormat(utf8)).ok(ps)
    ensures Counted(A.PredicateFormat(utf8)).write(ps) == Listed(4, ps, PredicateItem())
  {
    CountedOk(A.PredicateFormat(utf8), ps);
    forall k | 0 <= k < |ps|
      ensures A.PredicateFormat(utf8).write(ps[k]) == PredicateItem()(ps[k])
    {
      PredicateIs(utf8, ps[k]);
    }
    CountedIs(A.PredicateFormat(utf8), ps, PredicateItem());
  }

  lemma ExecutableParts(
    utf8: seq<byte> -> bool, predicates: Format<seq<A.Predicate>>, pairs: Format<seq<A.Pair>>, r: A.ExecutableRule)
    requires predicates == Counted(A.PredicateFormat(utf8)) && pairs == Counted(A.PairFormat(utf8))
    ensures A.ExecutableRuleFormat(utf8).write(r) ==
            Signed().write(r.priority) + WordBytes(r.order) + predicates.write(r.predicates)
            + Text(utf8).write(r.kind) + pairs.write(r.values)
    ensures A.ExecutableRuleFormat(utf8).ok(r) ==>
              Fit32(r.priority) && r.order < U32 && predicates.ok(r.predicates)
              && Text(utf8).ok(r.kind) && pairs.ok(r.values)
  {
    AsWrites(Both(Signed(), Both(Word(), Both(predicates, Both(Text(utf8), pairs)))),
             A.ExecutableRuleOf, A.ExecutableRuleParts, r);
    Writes5(Signed(), Word(), predicates, Text(utf8), pairs, r.priority, r.order, r.predicates, r.kind, r.values);
  }

  lemma ExecutableIs(utf8: seq<byte> -> bool, r: A.ExecutableRule)
    requires A.ExecutableRuleFormat(utf8).ok(r)
    ensures A.ExecutableRuleFormat(utf8).write(r) == ExecutableItem()(r)
  {
    ExecutableParts(utf8, Counted(A.PredicateFormat(utf8)), Counted(A.PairFormat(utf8)), r);
    SignedIs(r.priority);
    WordIs(r.order);
    PredicatesAre(utf8, r.predicates);
    StrIs(utf8, r.kind);
    PairsAre(utf8, r.values);
  }

  lemma ExecutablesAre(utf8: seq<byte> -> bool, rules: seq<A.ExecutableRule>)
    requires Counted(A.ExecutableRuleFormat(utf8)).ok(rules)
    ensures Counted(A.ExecutableRuleFormat(utf8)).write(rules) == Listed(4, rules, ExecutableItem())
  {
    CountedOk(A.ExecutableRuleFormat(utf8), rules);
    forall k | 0 <= k < |rules|
      ensures A.ExecutableRuleFormat(utf8).write(rules[k]) == ExecutableItem()(rules[k])
    {
      ExecutableIs(utf8, rules[k]);
    }
    CountedIs(A.ExecutableRuleFormat(utf8), rules, ExecutableItem());
  }

  lemma AbiPredicateIs(p: A.AbiPredicate)
    requires A.AbiPredicateFormat().ok(p)
    ensures A.AbiPredicateFormat().write(p) == AbiPredicateItem()(p)
  {
    AsWrites(Both(Word(), Both(Word(), Word())), A.AbiPredicateOf, A.AbiPredicateParts, p);
    Writes3(Word(), Word(), Word(), p.fieldId, p.opId, p.valueId);
    WordIs(p.fieldId);
    WordIs(p.opId);
    WordIs(p.valueId);
  }

  lemma AbiPredicatesAre(ps: seq<A.AbiPredicate>)
    requires Counted(A.AbiPredicateFormat()).ok(ps)
    ensures Counted(A.AbiPredicateFormat()).write(ps) == Listed(4, ps, AbiPredicateItem())
  {
    CountedOk(A.AbiPredicateFormat(), ps);
    forall k | 0 <= k < |ps|
      ensures A.AbiPredicateFormat().write(ps[k]) == AbiPredicateItem()(ps[k])
    {
      AbiPredicateIs(ps[k]);
    }
    CountedIs(A.AbiPredicateFormat(), ps, AbiPredicateItem());
  }

  lemma AbiValueIs(v: A.AbiValue)
    requires A.AbiValueFormat().ok(v)
    ensures A.AbiValueFormat().write(v) == AbiValueItem()(v)
  {
    AsWrites(Both(Word(), Word()), A.AbiValueOf, A.AbiValueParts, v);
    BothWrites(Word(), Word(), v.keyId, v.valueId);
    WordIs(v.keyId);
    WordIs(v.valueId);
  }

  lemma AbiValuesAre(vs: seq<A.AbiValue>)
    requires Counted(A.AbiValueFormat()).ok(vs)
    ensures Counted(A.AbiValueFormat()).write(vs) == Listed(4, vs, AbiValueItem())
  {
    CountedOk(A.AbiValueFormat(), vs);
    forall k | 0 <= k < |vs|
      ensures A.AbiValueFormat().write(vs[k]) == AbiValueItem()(vs[k])
    {
      AbiValueIs(vs[k]);
    }
    CountedIs(A.AbiValueFormat(), vs, AbiValueItem());
  }

  lemma AbiRuleParts(predicates: Format<seq<A.AbiPredicate>>, values: Format<seq<A.AbiValue>>, r: A.AbiRule)
    requires predicates == Counted(A.AbiPredicateFormat()) && values == Counted(A.AbiValueFormat())
    ensures A.AbiRuleFormat().write(r) ==
            Signed().write(r.priority) + WordBytes(r.order) + predicates.write(r.predicates)
            + WordBytes(r.actionId) + values.write(r.values)
    ensures A.AbiRuleFormat().ok(r) ==>
              && Fit32(r.priority) && r.order < U32 && predicates.ok(r.predicates)
              && r.actionId < U32 && values.ok(r.values)
  {
    AsWrites(Both(Signed(), Both(Word(), Both(predicates, Both(Word(), values)))), A.AbiRuleOf, A.AbiRuleParts, r);
    Writes5(Signed(), Word(), predicates, Word(), values, r.priority, r.order, r.predicates, r.actionId, r.values);
  }

  lemma AbiRuleIs(r: A.AbiRule)
    requires A.AbiRuleFormat().ok(r)
    ensures A.AbiRuleFormat().write(r) == AbiRuleItem()(r)
  {
    AbiRuleParts(Counted(A.AbiPredicateFormat()), Counted(A.AbiValueFormat()), r);
    SignedIs(r.priority);
    WordIs(r.order);
    WordIs(r.actionId);
    AbiPredicatesAre(r.predicates);
    AbiValuesAre(r.values);
  }

  lemma AbiRulesAre(rules: seq<A.AbiRule>)
    requires Counted(A.AbiRuleFormat()).ok(rules)
    ensures Counted(A.AbiRuleFormat()).write(rules) == Listed(4, rules, AbiRuleItem())
  {
    CountedOk(A.AbiRuleFormat(), rules);
    forall k | 0 <= k < |rules|
      ensures A.AbiRuleFormat().write(rules[k]) == AbiRuleItem()(rules[k])
    {
      AbiRuleIs(rules[k]);
    }
    CountedIs(A.AbiRuleFormat(), rules, AbiRuleItem());
  }

  lemma MetadataIs(utf8: seq<byte> -> bool, m: A.Metadata)
    requires A.MetadataFormat(utf8).ok(m)
    ensures A.MetadataFormat(utf8).write(m) == MetadataBytes(m)
  {
    var t := Text(utf8);
    AsWrites(Both(t, Both(t, Both(t, Both(t, t)))), A.MetadataOf, A.MetadataParts, m);
    Writes5(t, t, t, t, t, m.artifactVersion, m.sourceKind, m.sourceName, m.target, m.runtime);
    StrIs(utf8, m.artifactVersion);
    StrIs(utf8, m.sourceKind);
    StrIs(utf8, m.sourceName);
    StrIs(utf8, m.target);
    StrIs(utf8, m.runtime);
  }

  lemma ProgramIs(utf8: seq<byte> -> bool, ir: A.ProgramIr)
    requires A.ProgramIrFormat(utf8).ok(ir)
    ensures A.ProgramIrFormat(utf8).write(ir) == ProgramBytes(ir)
  {
    ProgramParts(utf8, Counted(Text(utf8)), Counted(A.RuleIrFormat(utf8)), ir);
    WordIs(ir.totalRules);
    StringsAre(utf8, ir.indexedFields);
    RuleIrsAre(utf8, ir.rules);
  }

  lemma ProgramParts(
    utf8: seq<byte> -> bool, fields: Format<seq<A.Str>>, rules: Format<seq<A.RuleIr>>, ir: A.ProgramIr)
    requires fields == Counted(Text(utf8)) && rules == Counted(A.RuleIrFormat(utf8))
    ensures A.ProgramIrFormat(utf8).write(ir) ==
            WordBytes(ir.totalRules) + fields.write(ir.indexedFields) + rules.write(ir.rules)
    ensures A.ProgramIrFormat(utf8).ok(ir) ==>
              ir.totalRules < U32 && fields.ok(ir.indexedFields) && rules.ok(ir.rules)
  {
    AsWrites(Both(Word(), Both(fields, rules)), A.ProgramIrOf, A.ProgramIrParts, ir);
    Writes3(Word(), fields, rules, ir.totalRules, ir.indexedFields, ir.rules);
  }

  lemma BodyParts(
    utf8: seq<byte> -> bool, metadata: Format<A.Metadata>, program: Format<A.ProgramIr>,
    rules: Format<seq<A.ExecutableRule>>, b: A.Body)
    requires metadata == A.MetadataFormat(utf8) && program == A.ProgramIrFormat(utf8)
    requires rules == Counted(A.ExecutableRuleFormat(utf8))
    ensures A.BodyFormat(utf8).write(b) ==
            metadata.write(b.metadata) + Text(utf8).write(b.compiledRpl) + program.write(b.ir)
            + rules.write(b.executable)
    ensures A.BodyFormat(utf8).ok(b) ==>
              metadata.ok(b.metadata) && Text(utf8).ok(b.compiledRpl) && program.ok(b.ir) && rules.ok(b.executable)
  {
    AsWrites(Both(metadata, Both(Text(utf8), Both(program, rules))), A.BodyOf, A.BodyParts, b);
    Writes4(metadata, Text(utf8), program, rules, b.metadata, b.compiledRpl, b.ir, b.executable);
  }

  lemma BodyIs(utf8: seq<byte> -> bool, b: A.Body)
    requires A.BodyFormat(utf8).ok(b)
    ensures A.BodyFormat(utf8).write(b) ==
            MetadataBytes(b.metadata) + Str(b.compiledRpl) + ProgramBytes(b.ir)
            + Listed(4, b.executable, ExecutableItem())
  {
    BodyParts(utf8, A.MetadataFormat(utf8), A.ProgramIrFormat(utf8), Counted(A.ExecutableRuleFormat(utf8)), b);
    MetadataIs(utf8, b.metadata);
    StrIs(utf8, b.compiledRpl);
    ProgramIs(utf8, b.ir);
    ExecutablesAre(utf8, b.executable);
  }

  lemma DeviceAbiIs(utf8: seq<byte> -> bool, d: A.DeviceAbi)
    requires A.DeviceAbiFormat(utf8).ok(d)
    ensures A.DeviceAbiFormat(utf8).write(d) == Str(d.version) + Listed(4, d.rules, AbiRuleItem())
  {
    AsWrites(Both(Text(utf8), Counted(A.AbiRuleFormat())), A.DeviceAbiOf, A.DeviceAbiParts, d);
    BothWrites(Text(utf8), Counted(A.AbiRuleFormat()), d.version, d.rules);
    StrIs(utf8, d.version);
    AbiRulesAre(d.rules);
  }

  lemma Joined(magic: seq<byte>, body: seq<byte>, device: seq<byte>)
    ensures magic + (body + device) == magic + body + device
  {
  }

  lemma EncodeParts(utf8: seq<byte> -> bool, a: A.Artifact, body: seq<byte>, device: seq<byte>)
    requires A.BodyFormat(utf8).write(a.body) == body && A.DeviceAbiFormat(utf8).write(a.deviceAbi) == device
    ensures A.Encode(utf8, a) == [0x52, 0x41, 0x4D, 0x41, 0x4E, 0x42, 0x31, 0x0A] + body + device
  {
    Joined([0x52, 0x41, 0x4D, 0x41, 0x4E, 0x42, 0x31, 0x0A], body, device);
  }

  /** The whole artifact, field by field. */
  lemma ArtifactIs(utf8: seq<byte> -> bool, a: A.Artifact)
    requires A.Encodable(utf8, a)
    ensures A.Encode(utf8, a) == ArtifactBytes(a)
  {
    BodyIs(utf8, a.body);
    DeviceAbiIs(utf8, a.deviceAbi);
    EncodeParts(utf8, a, A.BodyFormat(utf8).write(a.body), A.DeviceAbiFormat(utf8).write(a.deviceAbi));
  }

  // ---- Files that are refused -----------------------------------------------

  /** A file of less than eight bytes is too short for rules, and one that does not start with `GBC2` is foreign. */
  lemma RuleFileRefused(u: G.Utf8, raw: seq<byte>)
    ensures G.Load(u, raw) == G.NotLoaded(G.TooShort) <==> |raw| < 8
    ensures G.Load(u, raw) == G.NotLoaded(G.BadMagic) <==> |raw| >= 8 && raw[..4] != [0x47, 0x42, 0x43, 0x32]
  {
  }

  /** A file of less than eight bytes ends too soon for an artifact, and one without its tag is not one. */
  lemma ArtifactRefused(strings: A.Strings, raw: seq<byte>)
    ensures |raw| < 8 ==> A.Parse(strings, raw) == A.Unreadable(UnexpectedEof)
    ensures |raw| >= 8 && raw[..8] != [0x52, 0x41, 0x4D, 0x41, 0x4E, 0x42, 0x31, 0x0A] ==>
              A.Parse(strings, raw) == A.Invalid(A.UnsupportedHeader)
  {
  }
}

/**
 The binary Raman artifact of src/raman.rs: encoder, parser and the validation
 the parser ends with.
 */
module RamanArtifact {
  import opened BinaryFormat
  import opened ByteCodec

  /** A string, as its UTF-8 bytes. */
  type Str = seq<byte>

  datatype Metadata = Metadata(artifactVersion: Str, sourceKind: Str, sourceName: Str, target: Str, runtime: Str)
  datatype Pair = Pair(key: Str, value: Str)
  datatype RuleIr = RuleIr(priority: int, order: nat, actionKind: Str, exactFilters: seq<Pair>)
  datatype ProgramIr = ProgramIr(totalRules: nat, indexedFields: seq<Str>, rules: seq<RuleIr>)
  datatype Predicate = Predicate(field: Str, op: Str, value: Str)
  datatype ExecutableRule = ExecutableRule(
    priority: int, order: nat, predicates: seq<Predicate>, kind: Str, values: seq<Pair>)
  datatype AbiPredicate = AbiPredicate(fieldId: nat, opId: nat, valueId: nat)
  datatype AbiValue = AbiValue(keyId: nat, valueId: nat)
  datatype AbiRule = AbiRule(
    priority: int, order: nat, predicates: seq<AbiPredicate>, actionId: nat, values: seq<AbiValue>)
  datatype DeviceAbi = DeviceAbi(version: Str, rules: seq<AbiRule>)

  /** Everything of an artifact but its device ABI, which older files lack. */
  datatype Body = Body(metadata: Metadata, compiledRpl: Str, ir: ProgramIr, executable: seq<ExecutableRule>)
  datatype Artifact = Artifact(body: Body, deviceAbi: DeviceAbi)

  const MAGIC: seq<byte> := [0x52, 0x41, 0x4D, 0x41, 0x4E, 0x42, 0x31, 0x0A] // RAMANB1\n
  const NO_DEVICE_ABI: DeviceAbi := DeviceAbi([], [])

  /** What a string of Unicode is: valid UTF-8, and blank when trimming leaves nothing. */
  datatype Strings = Strings(utf8: seq<byte> -> bool, blank: seq<byte> -> bool)

  function Ascii(s: string): Str {
    seq(|s|, i requires 0 <= i < |s| => if s[i] < 128 as char then s[i] as int else 0)
  }

  // ---- Layout ---------------------------------------------------------------

  function PairParts(x: Pair): (Str, Str) {
    (x.key, x.value)
  }

  function PairOf(p: (Str, Str)): Pair {
    Pair(p.0, p.1)
  }

  function PairFormat(utf8: seq<byte> -> bool): Format<Pair> {
    As(Both(Text(utf8), Text(utf8)), PairOf, PairParts)
  }

  function MetadataParts(x: Metadata): (Str, (Str, (Str, (Str, Str)))) {
    (x.artifactVersion, (x.sourceKind, (x.sourceName, (x.target, x.runtime))))
  }

  function MetadataOf(p: (Str, (Str, (Str, (Str, Str))))): Metadata {
    Metadata(p.0, p.1.0, p.1.1.0, p.1.1.1.0, p.1.1.1.1)
  }

  function MetadataFormat(utf8: seq<byte> -> bool): Format<Metadata> {
    As(Both(Text(utf8), Both(Text(utf8), Both(Text(utf8), Both(Text(utf8), Text(utf8))))),
       MetadataOf, MetadataParts)
  }

  function RuleIrParts(x: RuleIr): (int, (nat, (Str, seq<Pair>))) {
    (x.priority, (x.order, (x.actionKind, x.exactFilters)))
  }

  function RuleIrOf(p: (int, (nat, (Str, seq<Pair>)))): RuleIr {
    RuleIr(p.0, p.1.0, p.1.1.0, p.1.1.1)
  }

  function RuleIrFormat(utf8: seq<byte> -> bool): Format<RuleIr> {
    As(Both(Signed(), Both(Word(), Both(Text(utf8), Counted(PairFormat(utf8))))), RuleIrOf, RuleIrParts)
  }

  function ProgramIrParts(x: ProgramIr): (nat, (seq<Str>, seq<RuleIr>)) {
    (x.totalRules, (x.indexedFields, x.rules))
  }

  function ProgramIrOf(p: (nat, (seq<Str>, seq<RuleIr>))): ProgramIr {
    ProgramIr(p.0, p.1.0, p.1.1)
  }

  function ProgramIrFormat(utf8: seq<byte> -> bool): Format<ProgramIr> {
    As(Both(Word(), Both(Counted(Text(utf8)), Counted(RuleIrFormat(utf8)))), ProgramIrOf, ProgramIrParts)
  }

  function PredicateParts(x: Predicate): (Str, (Str, Str)) {
    (x.field, (x.op, x.value))
  }

  function PredicateOf(p: (Str, (Str, Str))): Predicate {
    Predicate(p.0, p.1.0, p.1.1)
  }

  function PredicateFormat(utf8: seq<byte> -> bool): Format<Predicate> {
    As(Both(Text(utf8), Both(Text(utf8), Text(utf8))), PredicateOf, PredicateParts)
  }

  function ExecutableRuleParts(x: ExecutableRule): (int, (nat, (seq<Predicate>, (Str, seq<Pair>)))) {
    (x.priority, (x.order, (x.predicates, (x.kind, x.values))))
  }

  function ExecutableRuleOf(p: (int, (nat, (seq<Predicate>, (Str, seq<Pair>))))): ExecutableRule {
    ExecutableRule(p.0, p.1.0, p.1.1.0, p.1.1.1.0, p.1.1.1.1)
  }

  function ExecutableRuleFormat(utf8: seq<byte> -> bool): Format<ExecutableRule> {
    As(Both(Signed(), Both(Word(), Both(Counted(PredicateFormat(utf8)), Both(Text(utf8), Counted(PairFormat(utf8)))))),
       ExecutableRuleOf, ExecutableRuleParts)
  }

  function AbiPredicateParts(x: AbiPredicate): (nat, (nat, nat)) {
    (x.fieldId, (x.opId, x.valueId))
  }

  function AbiPredicateOf(p: (nat, (nat, nat))): AbiPredicate {
    AbiPredicate(p.0, p.1.0, p.1.1)
  }

  function AbiPredicateFormat(): Format<AbiPredicate> {
    As(Both(Word(), Both(Word(), Word())), AbiPredicateOf, AbiPredicateParts)
  }

  function AbiValueParts(x: AbiValue): (nat, nat) {
    (x.keyId, x.valueId)
  }

  function AbiValueOf(p: (nat, nat)): AbiValue {
    AbiValue(p.0, p.1)
  }

  function AbiValueFormat(): Format<AbiValue> {
    As(Both(Word(), Word()), AbiValueOf, AbiValueParts)
  }

  function AbiRuleParts(x: AbiRule): (int, (nat, (seq<AbiPredicate>, (nat, seq<AbiValue>)))) {
    (x.priority, (x.order, (x.predicates, (x.actionId, x.values))))
  }

  function AbiRuleOf(p: (int, (nat, (seq<AbiPredicate>, (nat, seq<AbiValue>))))): AbiRule {
    AbiRule(p.0, p.1.0, p.1.1.0, p.1.1.1.0, p.1.1.1.1)
  }

  function AbiRuleFormat(): Format<AbiRule> {
    As(Both(Signed(), Both(Word(), Both(Counted(AbiPredicateFormat()), Both(Word(), Counted(AbiValueFormat()))))),
       AbiRuleOf, AbiRuleParts)
  }

  function DeviceAbiParts(x: DeviceAbi): (Str, seq<AbiRule>) {
    (x.version, x.rules)
  }

  function DeviceAbiOf(p: (Str, seq<AbiRule>)): DeviceAbi {
    DeviceAbi(p.0, p.1)
  }

  function DeviceAbiFormat(utf8: seq<byte> -> bool): Format<DeviceAbi> {
    As(Both(Text(utf8), Counted(AbiRuleFormat())), DeviceAbiOf, DeviceAbiParts)
  }

  function BodyParts(x: Body): (Metadata, (Str, (ProgramIr, seq<ExecutableRule>))) {
    (x.metadata, (x.compiledRpl, (x.ir, x.executable)))
  }

  function BodyOf(p: (Metadata, (Str, (ProgramIr, seq<ExecutableRule>)))): Body {
    Body(p.0, p.1.0, p.1.1.0, p.1.1.1)
  }

  function BodyFormat(utf8: seq<byte> -> bool): Format<Body> {
    As(Both(MetadataFormat(utf8), Both(Text(utf8), Both(ProgramIrFormat(utf8), Counted(ExecutableRuleFormat(utf8))))),
       BodyOf, BodyParts)
  }

  // ---- Every layout reads back what it writes -------------------------------

  lemma PairLawful(utf8: seq<byte> -> bool)
    ensures Lawful(PairFormat(utf8))
  {
    TextLawful(utf8);
    BothLawful(Text(utf8), Text(utf8));
    AsLawful(Both(Text(utf8), Text(utf8)), PairOf, PairParts);
  }

  lemma MetadataLawful(utf8: seq<byte> -> bool)
    ensures Lawful(MetadataFormat(utf8))
  {
    TextLawful(utf8);
    BothLawful(Text(utf8), Text(utf8));
    var from4 := Both(Text(utf8), Text(utf8));
    BothLawful(Text(utf8), from4);
    var from3 := Both(Text(utf8), from4);
    BothLawful(Text(utf8), from3);
    var from2 := Both(Text(utf8), from3);
    BothLawful(Text(utf8), from2);
    var layout := Both(Text(utf8), from2);
    AsLawful(layout, MetadataOf, MetadataParts);
  }

  lemma RuleIrLawful(utf8: seq<byte> -> bool)
    ensures Lawful(RuleIrFormat(utf8))
  {
    SignedLawful();
    WordLawful();
    TextLawful(utf8);
    PairLawful(utf8);
    CountedLawful(PairFormat(utf8));
    BothLawful(Text(utf8), Counted(PairFormat(utf8)));
    var from3 := Both(Text(utf8), Counted(PairFormat(utf8)));
    BothLawful(Word(), from3);
    var from2 := Both(Word(), from3);
    BothLawful(Signed(), from2);
    var layout := Both(Signed(), from2);
    AsLawful(layout, RuleIrOf, RuleIrParts);
  }

  lemma ProgramIrLawful(utf8: seq<byte> -> bool)
    ensures Lawful(ProgramIrFormat(utf8))
  {
    WordLawful();
    TextLawful(utf8);
    CountedLawful(Text(utf8));
    RuleIrLawful(utf8);
    CountedLawful(RuleIrFormat(utf8));
    BothLawful(Counted(Text(utf8)), Counted(RuleIrFormat(utf8)));
    var from2 := Both(Counted(Text(utf8)), Counted(RuleIrFormat(utf8)));
    BothLawful(Word(), from2);
    var layout := Both(Word(), from2);
    AsLawful(layout, ProgramIrOf, ProgramIrParts);
  }

  lemma PredicateLawful(utf8: seq<byte> -> bool)
    ensures Lawful(PredicateFormat(utf8))
  {
    TextLawful(utf8);
    BothLawful(Text(utf8), Text(utf8));
    var from2 := Both(Text(utf8), Text(utf8));
    BothLawful(Text(utf8), from2);
    var layout := Both(Text(utf8), from2);
    AsLawful(layout, PredicateOf, PredicateParts);
  }

  lemma ExecutableRuleLawful(utf8: seq<byte> -> bool)
    ensures Lawful(ExecutableRuleFormat(utf8))
  {
    SignedLawful();
    WordLawful();
    PredicateLawful(utf8);
    CountedLawful(PredicateFormat(utf8));
    TextLawful(utf8);
    PairLawful(utf8);
    CountedLawful(PairFormat(utf8));
    BothLawful(Text(utf8), Counted(PairFormat(utf8)));
    var from4 := Both(Text(utf8), Counted(PairFormat(utf8)));
    BothLawful(Counted(PredicateFormat(utf8)), from4);
    var from3 := Both(Counted(PredicateFormat(utf8)), from4);
    BothLawful(Word(), from3);
    var from2 := Both(Word(), from3);
    BothLawful(Signed(), from2);
    var layout := Both(Signed(), from2);
    AsLawful(layout, ExecutableRuleOf, ExecutableRuleParts);
  }

  lemma AbiPredicateLawful()
    ensures Lawful(AbiPredicateFormat())
  {
    WordLawful();
    BothLawful(Word(), Word());
    var from2 := Both(Word(), Word());
    BothLawful(Word(), from2);
    var layout := Both(Word(), from2);
    AsLawful(layout, AbiPredicateOf, AbiPredicateParts);
  }

  lemma AbiValueLawful()
    ensures Lawful(AbiValueFormat())
  {
    WordLawful();
    BothLawful(Word(), Word());
    AsLawful(Both(Word(), Word()), AbiValueOf, AbiValueParts);
  }

  lemma AbiRuleLawful()
    ensures Lawful(AbiRuleFormat())
  {
    SignedLawful();
    WordLawful();
    AbiPredicateLawful();
    CountedLawful(AbiPredicateFormat());
    AbiValueLawful();
    CountedLawful(AbiValueFormat());
    BothLawful(Word(), Counted(AbiValueFormat()));
    var from4 := Both(Word(), Counted(AbiValueFormat()));
    BothLawful(Counted(AbiPredicateFormat()), from4);
    var from3 := Both(Counted(AbiPredicateFormat()), from4);
    BothLawful(Word(), from3);
    var from2 := Both(Word(), from3);
    BothLawful(Signed(), from2);
    var layout := Both(Signed(), from2);
    AsLawful(layout, AbiRuleOf, AbiRuleParts);
  }

  lemma DeviceAbiLawful(utf8: seq<byte> -> bool)
    ensures Lawful(DeviceAbiFormat(utf8))
  {
    TextLawful(utf8);
    AbiRuleLawful();
    CountedLawful(AbiRuleFormat());
    BothLawful(Text(utf8), Counted(AbiRuleFormat()));
    AsLawful(Both(Text(utf8), Counted(AbiRuleFormat())), DeviceAbiOf, DeviceAbiParts);
  }

  lemma BodyLawful(utf8: seq<byte> -> bool)
    ensures Lawful(BodyFormat(utf8))
  {
    MetadataLawful(utf8);
    TextLawful(utf8);
    ProgramIrLawful(utf8);
    ExecutableRuleLawful(utf8);
    CountedLawful(ExecutableRuleFormat(utf8));
    BothLawful(ProgramIrFormat(utf8), Counted(ExecutableRuleFormat(utf8)));
    var from3 := Both(ProgramIrFormat(utf8), Counted(ExecutableRuleFormat(utf8)));
    BothLawful(Text(utf8), from3);
    var from2 := Both(Text(utf8), from3);
    BothLawful(MetadataFormat(utf8), from2);
    var layout := Both(MetadataFormat(utf8), from2);
    AsLawful(layout, BodyOf, BodyParts);
  }

  // ---- The artifact ---------------------------------------------------------

  datatype Complaint =
    | None
    | UnsupportedHeader
    | UnsupportedVersion
    | UnsupportedRuntime
    | EmptyRpl
    | NoRules
    | RuleCountMismatch
    | NoIndexedFields
    | ExecutableCountMismatch
    | UnsupportedAbiVersion
    | AbiCountMismatch

  datatype Result = Parsed(artifact: Artifact) | Unreadable(error: ReadError) | Invalid(complaint: Complaint)

  const ARTIFACT_VERSION: Str := Ascii("raman-artifact/v1")
  const RUNTIME: Str := Ascii("RamanExecutor v1")
  const ABI_VERSION: Str := Ascii("raman-device-abi/v1")

  /** Every count and index fits 32 bits, every string is UTF-8. */
  ghost predicate Encodable(utf8: seq<byte> -> bool, a: Artifact) {
    BodyFormat(utf8).ok(a.body) && DeviceAbiFormat(utf8).ok(a.deviceAbi)
  }

  function EncodeWith(body: Format<Body>, device: Format<DeviceAbi>, a: Artifact): seq<byte> {
    MAGIC + (body.write(a.body) + device.write(a.deviceAbi))
  }

  function Encode(utf8: seq<byte> -> bool, a: Artifact): seq<byte> {
    EncodeWith(BodyFormat(utf8), DeviceAbiFormat(utf8), a)
  }

  /** `validate_raman_artifact`: the first check that fails. */
  function Validate(strings: Strings, a: Artifact): Complaint {
    var ir := a.body.ir;
    if a.body.metadata.artifactVersion != ARTIFACT_VERSION then UnsupportedVersion
    else if a.body.metadata.runtime != RUNTIME then UnsupportedRuntime
    else if strings.blank(a.body.compiledRpl) then EmptyRpl
    else if ir.totalRules == 0 || ir.rules == [] then NoRules
    else if ir.totalRules != |ir.rules| then RuleCountMismatch
    else if ir.indexedFields == [] then NoIndexedFields
    else if a.body.executable != [] && |a.body.executable| != ir.totalRules then ExecutableCountMismatch
    else if a.deviceAbi.rules != [] && a.deviceAbi.version != ABI_VERSION then UnsupportedAbiVersion
    else if a.deviceAbi.rules != [] && |a.deviceAbi.rules| != ir.totalRules then AbiCountMismatch
    else None
  }

  predicate Valid(strings: Strings, a: Artifact) {
    Validate(strings, a) == None
  }

  function Finish(strings: Strings, a: Artifact): Result {
    if Valid(strings, a) then Parsed(a) else Invalid(Validate(strings, a))
  }

  /** The device ABI is read only if bytes are left; without any it is the default. */
  function ReadDeviceAbi(device: Format<DeviceAbi>, b: seq<byte>): Read<DeviceAbi> {
    if b == [] then Got(NO_DEVICE_ABI, []) else device.read(b)
  }

  datatype Header = TooShort | Foreign | Ours(rest: seq<byte>)

  function CheckHeader(raw: seq<byte>): Header {
    if |raw| < 8 then TooShort else if raw[..8] != MAGIC then Foreign else Ours(raw[8..])
  }

  function ParseWith(strings: Strings, body: Format<Body>, device: Format<DeviceAbi>, raw: seq<byte>): Result {
    match CheckHeader(raw)
    case TooShort => Unreadable(UnexpectedEof)
    case Foreign => Invalid(UnsupportedHeader)
    case Ours(b) => ParseBody(strings, device, body.read(b))
  }

  function ParseBody(strings: Strings, device: Format<DeviceAbi>, body: Read<Body>): Result {
    match body
    case Bad(e) => Unreadable(e)
    case Got(b, rest) => ParseDevice(strings, device, b, rest)
  }

  function ParseDevice(strings: Strings, device: Format<DeviceAbi>, body: Body, rest: seq<byte>): Result {
    match ReadDeviceAbi(device, rest)
    case Bad(e) => Unreadable(e)
    case Got(deviceAbi, _) => Finish(strings, Artifact(body, deviceAbi))
  }

  /** What `parse_raman_artifact_binary` answers; bytes behind the device ABI are never looked at. */
  function Parse(strings: Strings, raw: seq<byte>): Result {
    ParseWith(strings, BodyFormat(strings.utf8), DeviceAbiFormat(strings.utf8), raw)
  }

  // ---- Imperative encoder and parser ----------------------------------------

  lemma Regroup(a: seq<byte>, b: seq<byte>, c: seq<byte>, d: seq<byte>, e: seq<byte>, f: seq<byte>)
    ensures a + b + c + d + e + f == a + (b + ((c + (d + e)) + f))
  {
    assert a + b + (c + (d + e)) == a + b + c + d + e;
    assert a + (b + (c + (d + e))) + f == a + b + (c + (d + e)) + f;
  }

  lemma ProgramIrBytes(utf8: seq<byte> -> bool, ir: ProgramIr)
    ensures ProgramIrFormat(utf8).write(ir) ==
            Word().write(ir.totalRules)
            + (Counted(Text(utf8)).write(ir.indexedFields) + Counted(RuleIrFormat(utf8)).write(ir.rules))
  {
    var lists := Both(Counted(Text(utf8)), Counted(RuleIrFormat(utf8)));
    AsWrites(Both(Word(), lists), ProgramIrOf, ProgramIrParts, ir);
    BothWrites(Word(), lists, ir.totalRules, (ir.indexedFields, ir.rules));
    BothWrites(Counted(Text(utf8)), Counted(RuleIrFormat(utf8)), ir.indexedFields, ir.rules);
  }

  lemma BodyParts4(utf8: seq<byte> -> bool, b: Body)
    ensures BodyFormat(utf8).write(b) ==
            MetadataFormat(utf8).write(b.metadata)
            + (Text(utf8).write(b.compiledRpl)
               + (ProgramIrFormat(utf8).write(b.ir) + Counted(ExecutableRuleFormat(utf8)).write(b.executable)))
  {
    var rules := Both(ProgramIrFormat(utf8), Counted(ExecutableRuleFormat(utf8)));
    AsWrites(Both(MetadataFormat(utf8), Both(Text(utf8), rules)), BodyOf, BodyParts, b);
    BothWrites(MetadataFormat(utf8), Both(Text(utf8), rules), b.metadata, (b.compiledRpl, (b.ir, b.executable)));
    BothWrites(Text(utf8), rules, b.compiledRpl, (b.ir, b.executable));
    BothWrites(ProgramIrFormat(utf8), Counted(ExecutableRuleFormat(utf8)), b.ir, b.executable);
  }

  lemma DeviceAbiBytes(utf8: seq<byte> -> bool, d: DeviceAbi)
    ensures DeviceAbiFormat(utf8).write(d) == Text(utf8).write(d.version) + Counted(AbiRuleFormat()).write(d.rules)
  {
    AsWrites(Both(Text(utf8), Counted(AbiRuleFormat())), DeviceAbiOf, DeviceAbiParts, d);
    BothWrites(Text(utf8), Counted(AbiRuleFormat()), d.version, d.rules);
  }

  lemma BodyBytes(utf8: seq<byte> -> bool, b: Body)
    ensures BodyFormat(utf8).write(b) ==
            MetadataFormat(utf8).write(b.metadata) + Text(utf8).write(b.compiledRpl) + Word().write(b.ir.totalRules)
            + Counted(Text(utf8)).write(b.ir.indexedFields) + Counted(RuleIrFormat(utf8)).write(b.ir.rules)
            + Counted(ExecutableRuleFormat(utf8)).write(b.executable)
  {
    BodyParts4(utf8, b);
    ProgramIrBytes(utf8, b.ir);
    Regroup(MetadataFormat(utf8).write(b.metadata), Text(utf8).write(b.compiledRpl), Word().write(b.ir.totalRules),
            Counted(Text(utf8)).write(b.ir.indexedFields), Counted(RuleIrFormat(utf8)).write(b.ir.rules),
            Counted(ExecutableRuleFormat(utf8)).write(b.executable));
  }

  method EncodeBody(utf8: seq<byte> -> bool, b: Body) returns (out: seq<byte>)
    ensures out == BodyFormat(utf8).write(b)
  {
    BodyBytes(utf8, b);
    out := MetadataFormat(utf8).write(b.metadata) + Text(utf8).write(b.compiledRpl) + Word().write(b.ir.totalRules);
    out := AppendCounted(out, Word(), Text(utf8), b.ir.indexedFields);
    out := AppendCounted(out, Word(), RuleIrFormat(utf8), b.ir.rules);
    out := AppendCounted(out, Word(), ExecutableRuleFormat(utf8), b.executable);
  }

  /** `encode_raman_artifact_binary`. */
  method EncodeArtifact(utf8: seq<byte> -> bool, a: Artifact) returns (out: seq<byte>)
    ensures out == Encode(utf8, a)
  {
    DeviceAbiBytes(utf8, a.deviceAbi);
    var body := EncodeBody(utf8, a.body);
    out := AppendCounted(Text(utf8).write(a.deviceAbi.version), Word(), AbiRuleFormat(), a.deviceAbi.rules);
    out := MAGIC + (body + out);
  }

  method TakeProgramIr(utf8: seq<byte> -> bool, b: seq<byte>) returns (r: Read<ProgramIr>)
    ensures r == ProgramIrFormat(utf8).read(b)
  {
    var total := ReadU32(b);
    if total.Bad? {
      return Bad(total.error);
    }
    var fields := TakeCounted(Word(), Text(utf8), total.rest);
    if fields.Bad? {
      return Bad(fields.error);
    }
    var rules := TakeCounted(Word(), RuleIrFormat(utf8), fields.rest);
    if rules.Bad? {
      return Bad(rules.error);
    }
    r := Got(ProgramIr(total.value, fields.value, rules.value), rules.rest);
  }

  method TakeBody(utf8: seq<byte> -> bool, b: seq<byte>) returns (r: Read<Body>)
    ensures r == BodyFormat(utf8).read(b)
  {
    var metadata := MetadataFormat(utf8).read(b);
    if metadata.Bad? {
      return Bad(metadata.error);
    }
    var compiled := ReadText(utf8, metadata.rest);
    if compiled.Bad? {
      return Bad(compiled.error);
    }
    var ir := TakeProgramIr(utf8, compiled.rest);
    if ir.Bad? {
      return Bad(ir.error);
    }
    var executable := TakeCounted(Word(), ExecutableRuleFormat(utf8), ir.rest);
    if executable.Bad? {
      return Bad(executable.error);
    }
    r := Got(Body(metadata.value, compiled.value, ir.value, executable.value), executable.rest);
  }

  method TakeDeviceAbi(utf8: seq<byte> -> bool, b: seq<byte>) returns (r: Read<DeviceAbi>)
    ensures r == ReadDeviceAbi(DeviceAbiFormat(utf8), b)
  {
    if b == [] {
      return Got(NO_DEVICE_ABI, []);
    }
    var version := ReadText(utf8, b);
    if version.Bad? {
      return Bad(version.error);
    }
    var rules := TakeCounted(Word(), AbiRuleFormat(), version.rest);
    if rules.Bad? {
      return Bad(rules.error);
    }
    r := Got(DeviceAbi(version.value, rules.value), rules.rest);
  }

  /** `parse_raman_artifact_binary`. */
  method ParseArtifact(strings: Strings, raw: seq<byte>) returns (r: Result)
    ensures r == Parse(strings, raw)
  {
    match CheckHeader(raw)
    case TooShort => r := Unreadable(UnexpectedEof);
    case Foreign => r := Invalid(UnsupportedHeader);
    case Ours(b) => r := ParseAfterHeader(strings, b);
  }

  method ParseAfterHeader(strings: Strings, b: seq<byte>) returns (r: Result)
    ensures r == ParseBody(strings, DeviceAbiFormat(strings.utf8), BodyFormat(strings.utf8).read(b))
  {
    var body := TakeBody(strings.utf8, b);
    if body.Bad? {
      r := Unreadable(body.error);
    } else {
      r := FinishDevice(strings, body.value, body.rest);
    }
  }

  method FinishDevice(strings: Strings, body: Body, rest: seq<byte>) returns (r: Result)
    ensures r == ParseDevice(strings, DeviceAbiFormat(strings.utf8), body, rest)
  {
    var deviceAbi := TakeDeviceAbi(strings.utf8, rest);
    if deviceAbi.Bad? {
      return Unreadable(deviceAbi.error);
    }
    r := Finish(strings, Artifact(body, deviceAbi.value));
  }

  // ---- Round trip and truncation --------------------------------------------

  lemma MagicOff(b: seq<byte>)
    ensures CheckHeader(MAGIC + b) == Ours(b)
  {
    assert (MAGIC + b)[..8] == MAGIC && (MAGIC + b)[8..] == b;
  }

  /** The two halves of a layout, and that its device part always writes something. */
  ghost predicate LayoutOk(body: Format<Body>, device: Format<DeviceAbi>) {
    Lawful(body) && Lawful(device) && forall d :: device.write(d) != []
  }

  ghost predicate CanCarry(body: Format<Body>, device: Format<DeviceAbi>, a: Artifact) {
    LayoutOk(body, device) && body.ok(a.body) && device.ok(a.deviceAbi)
  }

  lemma LayoutIsOk(utf8: seq<byte> -> bool)
    ensures LayoutOk(BodyFormat(utf8), DeviceAbiFormat(utf8))
  {
    BodyLawful(utf8);
    DeviceAbiLawful(utf8);
    forall d
      ensures DeviceAbiFormat(utf8).write(d) != []
    {
      DeviceAbiBytes(utf8, d);
    }
  }

  lemma ParseWithUndoes(strings: Strings, body: Format<Body>, device: Format<DeviceAbi>, a: Artifact, rest: seq<byte>)
    ensures CanCarry(body, device, a) ==>
              ParseWith(strings, body, device, EncodeWith(body, device, a) + rest) == Finish(strings, a)
  {
    if !CanCarry(body, device, a) {
      return;
    }
    var tail := device.write(a.deviceAbi) + rest;
    assert EncodeWith(body, device, a) + rest == MAGIC + (body.write(a.body) + tail);
    MagicOff(body.write(a.body) + tail);
    assert InvertsAt(body, a.body, tail) && InvertsAt(device, a.deviceAbi, rest);
  }

  /** What parsing makes of an encoding cut off after `cut` bytes. */
  function Truncated(strings: Strings, body: Format<Body>, a: Artifact, cut: nat): Result {
    if cut == 8 + |body.write(a.body)| then Finish(strings, a.(deviceAbi := NO_DEVICE_ABI))
    else Unreadable(UnexpectedEof)
  }

  lemma ParseWithCut(strings: Strings, body: Format<Body>, device: Format<DeviceAbi>, a: Artifact, cut: nat)
    ensures CanCarry(body, device, a) && cut < |EncodeWith(body, device, a)| ==>
              ParseWith(strings, body, device, EncodeWith(body, device, a)[..cut]) == Truncated(strings, body, a, cut)
  {
    if !CanCarry(body, device, a) || cut >= |EncodeWith(body, device, a)| {
      return;
    }
    var bodyBytes, deviceBytes := body.write(a.body), device.write(a.deviceAbi);
    var b := EncodeWith(body, device, a)[..cut];
    if cut >= 8 + |bodyBytes| {
      var k := cut - 8 - |bodyBytes|;
      assert b == MAGIC + (bodyBytes + deviceBytes[..k]);
      MagicOff(bodyBytes + deviceBytes[..k]);
      assert InvertsAt(body, a.body, deviceBytes[..k]) && RefusesAt(device, a.deviceAbi, k);
    } else if cut >= 8 {
      assert b == MAGIC + bodyBytes[..cut - 8];
      MagicOff(bodyBytes[..cut - 8]);
      assert RefusesAt(body, a.body, cut - 8);
    }
  }

  /** Parsing what was written gives it back, whatever bytes follow, if it passes validation. */
  lemma ParseUndoesEncode(strings: Strings, a: Artifact, rest: seq<byte>)
    requires Encodable(strings.utf8, a)
    ensures Parse(strings, Encode(strings.utf8, a) + rest) == Finish(strings, a)
  {
    LayoutIsOk(strings.utf8);
    ParseWithUndoes(strings, BodyFormat(strings.utf8), DeviceAbiFormat(strings.utf8), a, rest);
  }

  /**
   A truncated artifact is never mistaken for a whole one: every proper prefix
   hits the end of the file, except the one cut where the device ABI starts,
   which parses to the same artifact without device rules.
   */
  lemma PrefixRejected(strings: Strings, a: Artifact, cut: nat)
    requires Encodable(strings.utf8, a) && cut < |Encode(strings.utf8, a)|
    ensures Parse(strings, Encode(strings.utf8, a)[..cut]) == Truncated(strings, BodyFormat(strings.utf8), a, cut)
  {
    LayoutIsOk(strings.utf8);
    ParseWithCut(strings, BodyFormat(strings.utf8), DeviceAbiFormat(strings.utf8), a, cut);
  }

  /** Dropping the device ABI never invalidates an artifact. */
  lemma WithoutDeviceAbiValid(strings: Strings, a: Artifact)
    requires Valid(strings, a)
    ensures Finish(strings, a.(deviceAbi := NO_DEVICE_ABI)) == Parsed(a.(deviceAbi := NO_DEVICE_ABI))
  {
  }

  /** Two artifacts with one encoding are the same artifact. */
  lemma EncodeInjective(utf8: seq<byte> -> bool, a: Artifact, b: Artifact)
    requires Encodable(utf8, a) && Encodable(utf8, b) && Encode(utf8, a) == Encode(utf8, b)
    ensures a == b
  {
    LayoutIsOk(utf8);
    EncodeWithInjective(BodyFormat(utf8), DeviceAbiFormat(utf8), a, b);
  }

  lemma EncodeWithInjective(body: Format<Body>, device: Format<DeviceAbi>, a: Artifact, b: Artifact)
    requires LayoutOk(body, device) && EncodeWith(body, device, a) == EncodeWith(body, device, b)
    requires body.ok(a.body) && device.ok(a.deviceAbi) && body.ok(b.body) && device.ok(b.deviceAbi)
    ensures a == b
  {
    var x, y := device.write(a.deviceAbi), device.write(b.deviceAbi);
    MagicOff(body.write(a.body) + x);
    MagicOff(body.write(b.body) + y);
    assert InvertsAt(body, a.body, x) && InvertsAt(body, b.body, y);
    assert InvertsAt(device, a.deviceAbi, []) && InvertsAt(device, b.deviceAbi, []);
    assert x + [] == x && y + [] == y;
  }

  // ---- What a valid artifact is ---------------------------------------------

  /** Rules, if there are any, are as many as the IR says. */
  predicate AsMany(rules: nat, total: nat) {
    rules == 0 || rules == total
  }

  /**
   An artifact is valid exactly if it states the one version and runtime, has
   compiled text and indexed fields, holds at least one rule and as many as it
   says, and its executable and device rules, where it has any, are as many, the
   latter under the one ABI version.
   */
  lemma ValidIff(strings: Strings, a: Artifact)
    ensures Valid(strings, a) <==>
      && a.body.metadata.artifactVersion == Ascii("raman-artifact/v1")
      && a.body.metadata.runtime == Ascii("RamanExecutor v1")
      && !strings.blank(a.body.compiledRpl)
      && a.body.ir.rules != [] && a.body.ir.totalRules == |a.body.ir.rules|
      && a.body.ir.indexedFields != []
      && AsMany(|a.body.executable|, |a.body.ir.rules|)
      && AsMany(|a.deviceAbi.rules|, |a.body.ir.rules|)
      && (a.deviceAbi.rules != [] ==> a.deviceAbi.version == Ascii("raman-device-abi/v1"))
  {
  }

  /** Which complaint is made: the first that applies, in this order. */
  lemma ComplaintIs(strings: Strings, a: Artifact)
    ensures var c, ir := Validate(strings, a), a.body.ir;
      && (a.body.metadata.artifactVersion != Ascii("raman-artifact/v1") <==> c == UnsupportedVersion)
      && (c == UnsupportedRuntime ==> a.body.metadata.runtime != Ascii("RamanExecutor v1"))
      && (c == EmptyRpl ==> a.body.metadata.runtime == Ascii("RamanExecutor v1") && strings.blank(a.body.compiledRpl))
      && (c == NoRules ==> !strings.blank(a.body.compiledRpl) && (ir.totalRules == 0 || ir.rules == []))
      && (c == RuleCountMismatch ==> ir.totalRules > 0 && ir.rules != [] && ir.totalRules != |ir.rules|)
      && (c == NoIndexedFields ==> ir.totalRules == |ir.rules| && ir.indexedFields == [])
      && (c == ExecutableCountMismatch ==> ir.indexedFields != [] && |a.body.executable| != ir.totalRules)
      && (c == UnsupportedAbiVersion ==>
            AsMany(|a.body.executable|, ir.totalRules) && a.deviceAbi.version != Ascii("raman-device-abi/v1"))
      && (c == AbiCountMismatch ==>
            a.deviceAbi.version == Ascii("raman-device-abi/v1") && |a.deviceAbi.rules| != ir.totalRules)
      && c != UnsupportedHeader
  {
  }
}

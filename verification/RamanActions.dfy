/**
 What the mirror executor of src/raman.rs reads from an action's values, and when
 that lets a fresh decision succeed.
 */
module RamanActions {
  import opened MirrorExecutor
  import opened Outcome

  /** `value_for`: the first value stored under a key. */
  function ValueFor(values: Values, key: string): Option<string> {
    if values == [] then None
    else if values[0].0 == key then Some(values[0].1)
    else ValueFor(values[1..], key)
  }

  function Required(values: Values, key: string): Result<string, string> {
    match ValueFor(values, key)
    case Some(v) => Ok(v)
    case None => Err("missing action key: " + key)
  }

  function Parsed<T>(raw: Result<string, string>, parse: string -> Option<T>, complaint: string): Result<T, string> {
    match raw
    case Err(e) => Err(e)
    case Ok(text) => if parse(text).Some? then Ok(parse(text).value) else Err(complaint + text)
  }

  function ReadTicks(parseU32: string -> Option<nat>, values: Values): Result<nat, string> {
    Parsed(Required(values, "ticks"), parseU32, "invalid unsigned integer: ")
  }

  function ReadName(values: Values): string {
    var name := ValueFor(values, "name");
    if name.Some? then name.value else "unnamed"
  }

  /** The fields are read in this order, and the first one missing or malformed is reported. */
  function ReadRis(parseI32: string -> Option<int>, values: Values): Result<RisPlan, string> {
    var mode, surface := Required(values, "mode"), Required(values, "surface");
    var azimuth := Parsed(Required(values, "azimuth_deg"), parseI32, "invalid integer: ");
    var phase, gain := Required(values, "phase_profile"), Required(values, "reflection_gain_db");
    if mode.Err? then Err(mode.error)
    else if surface.Err? then Err(surface.error)
    else if azimuth.Err? then Err(azimuth.error)
    else if phase.Err? then Err(phase.error)
    else if gain.Err? then Err(gain.error)
    else Ok(RisPlan(mode.value, surface.value, azimuth.value, phase.value, gain.value))
  }

  function ReadVerify(parseF32: string -> Option<nat>, values: Values): Result<Guard, string> {
    var metric, fallback := Required(values, "metric"), Required(values, "fallback");
    var least := Parsed(Required(values, "min"), parseF32, "invalid float: ");
    if metric.Err? then Err(metric.error)
    else if least.Err? then Err(least.error)
    else if fallback.Err? then Err(fallback.error)
    else Ok(Guard(metric.value, least.value, fallback.value))
  }

  /** The program's own environment, over its number parsers and radio profiles. */
  function RamanEnv<C, P>(
    matches: (seq<Predicate>, C) -> bool, basePhy: C -> P, presetName: P -> string, phyOf: Values -> Result<P, string>,
    parseI32: string -> Option<int>, parseU32: string -> Option<nat>, parseF32: string -> Option<nat>,
    defaultPriority: (C, string) -> string, below: (C, Guard) -> bool): Env<C, P>
  {
    Env(matches, basePhy, presetName, phyOf, ReadName, (values: Values) => ValueFor(values, "priority"),
        (values: Values) => ReadRis(parseI32, values), (values: Values) => ReadVerify(parseF32, values),
        (values: Values) => ReadTicks(parseU32, values), defaultPriority, below)
  }

  // ---- When a fresh decision succeeds ---------------------------------------

  predicate Has(values: Values, key: string) {
    ValueFor(values, key).Some?
  }

  /** The value stored under a key is there and parses. */
  predicate HasParsed<T>(values: Values, key: string, parse: string -> Option<T>) {
    Has(values, key) && parse(ValueFor(values, key).value).Some?
  }

  /** The numbers a rule's values hold. */
  datatype Parsers = Parsers(i32: string -> Option<int>, u32: string -> Option<nat>, f32: string -> Option<nat>)

  /** What an action of this kind has to state. */
  predicate States(n: Parsers, kind: Kind, values: Values) {
    match kind
    case Ris =>
      Has(values, "mode") && Has(values, "surface") && HasParsed(values, "azimuth_deg", n.i32)
      && Has(values, "phase_profile") && Has(values, "reflection_gain_db")
    case Verify => Has(values, "metric") && HasParsed(values, "min", n.f32) && Has(values, "fallback")
    case Hold => HasParsed(values, "ticks", n.u32)
    case Cooldown => HasParsed(values, "ticks", n.u32)
    case _ => true
  }

  lemma StatesIff(n: Parsers, values: Values)
    ensures ReadRis(n.i32, values).Ok? <==> States(n, Ris, values)
    ensures ReadVerify(n.f32, values).Ok? <==> States(n, Verify, values)
    ensures ReadTicks(n.u32, values).Ok? <==> States(n, Hold, values)
    ensures ReadTicks(n.u32, values).Ok? <==> States(n, Cooldown, values)
  {
  }

  /** What a readable action puts into the snapshot: each key's first value, in its own place. */
  lemma ReadsIts(n: Parsers, values: Values)
    ensures States(n, Ris, values) ==>
              ReadRis(n.i32, values) == Ok(RisPlan(
                ValueFor(values, "mode").value, ValueFor(values, "surface").value,
                n.i32(ValueFor(values, "azimuth_deg").value).value,
                ValueFor(values, "phase_profile").value, ValueFor(values, "reflection_gain_db").value))
    ensures States(n, Verify, values) ==>
              ReadVerify(n.f32, values) == Ok(Guard(
                ValueFor(values, "metric").value, n.f32(ValueFor(values, "min").value).value,
                ValueFor(values, "fallback").value))
    ensures States(n, Hold, values) ==>
              ReadTicks(n.u32, values) == Ok(n.u32(ValueFor(values, "ticks").value).value)
    ensures ReadName(values) == if Has(values, "name") then ValueFor(values, "name").value else "unnamed"
  {
  }

  /** A transport action's priority, and any action's name, is the first value under that key. */
  lemma TransportReads<C, P>(
    matches: (seq<Predicate>, C) -> bool, basePhy: C -> P, presetName: P -> string, phyOf: Values -> Result<P, string>,
    n: Parsers, defaultPriority: (C, string) -> string, below: (C, Guard) -> bool, values: Values, k: nat)
    requires k < |values| && values[k].0 == "priority" && forall j :: 0 <= j < k ==> values[j].0 != "priority"
    ensures RamanEnv(matches, basePhy, presetName, phyOf, n.i32, n.u32, n.f32, defaultPriority, below)
              .priorityOf(values) == Some(values[k].1)
  {
    FirstValue(values, "priority", k);
  }

  /** Which key or number is missed: the first in this order. */
  lemma FaultIs(n: Parsers, values: Values)
    ensures var ris := ReadRis(n.i32, values);
      && (!Has(values, "mode") ==> ris == Err("missing action key: " + "mode"))
      && (Has(values, "mode") && !Has(values, "surface") ==> ris == Err("missing action key: " + "surface"))
      && (Has(values, "mode") && Has(values, "surface") ==>
            && (!Has(values, "azimuth_deg") ==> ris == Err("missing action key: " + "azimuth_deg"))
            && (Has(values, "azimuth_deg") && !HasParsed(values, "azimuth_deg", n.i32) ==>
                  ris == Err("invalid integer: " + ValueFor(values, "azimuth_deg").value))
            && (HasParsed(values, "azimuth_deg", n.i32) && !Has(values, "phase_profile") ==>
                  ris == Err("missing action key: " + "phase_profile"))
            && (HasParsed(values, "azimuth_deg", n.i32) && Has(values, "phase_profile")
                && !Has(values, "reflection_gain_db") ==>
                  ris == Err("missing action key: " + "reflection_gain_db")))
    ensures var guard := ReadVerify(n.f32, values);
      && (!Has(values, "metric") ==> guard == Err("missing action key: " + "metric"))
      && (Has(values, "metric") && !Has(values, "min") ==> guard == Err("missing action key: " + "min"))
      && (Has(values, "metric") && Has(values, "min") && !HasParsed(values, "min", n.f32) ==>
            guard == Err("invalid float: " + ValueFor(values, "min").value))
      && (Has(values, "metric") && HasParsed(values, "min", n.f32) && !Has(values, "fallback") ==>
            guard == Err("missing action key: " + "fallback"))
    ensures !Has(values, "ticks") ==> ReadTicks(n.u32, values) == Err("missing action key: " + "ticks")
    ensures Has(values, "ticks") && !HasParsed(values, "ticks", n.u32) ==>
              ReadTicks(n.u32, values) == Err("invalid unsigned integer: " + ValueFor(values, "ticks").value)
  {
  }

  /** A key's value is the first one stored under it. */
  lemma {:induction false} FirstValue(values: Values, key: string, k: nat)
    requires k < |values| && values[k].0 == key && forall j :: 0 <= j < k ==> values[j].0 != key
    ensures ValueFor(values, key) == Some(values[k].1)
  {
    if k > 0 {
      FirstValue(values[1..], key, k - 1);
    }
  }

  /** The first rule with an action of this kind. */
  function FirstOf(rules: seq<Rule>, kind: Kind): Option<Rule> {
    if rules == [] then None else if rules[0].kind == kind then Some(rules[0]) else FirstOf(rules[1..], kind)
  }

  /** The first action of this kind, if there is one, states what it has to. */
  predicate FirstStates(n: Parsers, rules: seq<Rule>, kind: Kind) {
    FirstOf(rules, kind).Some? ==> States(n, kind, FirstOf(rules, kind).value.values)
  }

  lemma {:induction false} FirstReadable<T>(
    n: Parsers, rules: seq<Rule>, kind: Kind, pick: Rule -> Option<Result<T, string>>)
    requires forall r: Rule :: pick(r).Some? <==> r.kind == kind
    requires forall r: Rule :: r.kind == kind ==> (pick(r).value.Ok? <==> States(n, kind, r.values))
    ensures Readable(First(rules, pick)) <==> FirstStates(n, rules, kind)
  {
    if rules != [] && rules[0].kind != kind {
      FirstReadable(n, rules[1..], kind, pick);
    }
  }

  /**
   With the program's own readers a fresh decision succeeds exactly when, among
   the matching rules, the first `ris`, `verify`, `hold` and `cooldown` action
   each state what they have to, and the first profile that differs from the
   planner's can be read; whatever later actions of those kinds say.
   */
  lemma FreshSucceedsIff<C, P>(
    matches: (seq<Predicate>, C) -> bool, basePhy: C -> P, presetName: P -> string,
    phyOf: Values -> Result<P, string>, n: Parsers, defaultPriority: (C, string) -> string,
    below: (C, Guard) -> bool, rules: seq<Rule>, stream: string, c: C, t: Option<Window<P>>)
    ensures var env := RamanEnv(matches, basePhy, presetName, phyOf, n.i32, n.u32, n.f32, defaultPriority, below);
            var matching := Matching(env, rules, c);
            Fresh(env, rules, stream, c, t).0.Ok? <==>
              && FirstStates(n, matching, Ris) && FirstStates(n, matching, Verify)
              && FirstStates(n, matching, Hold) && FirstStates(n, matching, Cooldown)
              && Readable(First(matching, PickPhy(env, basePhy(c))))
  {
    var env := RamanEnv(matches, basePhy, presetName, phyOf, n.i32, n.u32, n.f32, defaultPriority, below);
    var matching := Matching(env, rules, c);
    FreshIsSearch(env, rules, stream, c, t);
    forall values: Values
      ensures ReadRis(n.i32, values).Ok? <==> States(n, Ris, values)
      ensures ReadVerify(n.f32, values).Ok? <==> States(n, Verify, values)
      ensures ReadTicks(n.u32, values).Ok? <==> States(n, Hold, values)
      ensures ReadTicks(n.u32, values).Ok? <==> States(n, Cooldown, values)
    {
      StatesIff(n, values);
    }
    FirstReadable(n, matching, Ris, PickRis(env));
    FirstReadable(n, matching, Verify, PickVerify(env));
    FirstReadable(n, matching, Hold, PickTicks(env, Hold));
    FirstReadable(n, matching, Cooldown, PickTicks(env, Cooldown));
  }
}

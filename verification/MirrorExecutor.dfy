/**
 The mirror executor of src/raman.rs: one pass over the rules fills a snapshot's
 slots, and a decision may open a window during which its stream is answered
 from memory.
 */
module MirrorExecutor {
  import opened Outcome

  type Values = seq<(string, string)>

  datatype Kind = Contract | Phy | Transport | Ris | Verify | Hold | Cooldown | Unknown(name: string)

  datatype Predicate = Predicate(field: string, op: string, value: string)
  datatype Rule = Rule(priority: int, order: nat, predicates: seq<Predicate>, kind: Kind, values: Values)

  datatype RisPlan = RisPlan(mode: string, surface: string, azimuthDeg: int, phaseProfile: string, gainDb: string)

  /** `minValue` is a float, kept as its bits. */
  datatype Guard = Guard(metric: string, minValue: nat, fallback: string)

  datatype Snapshot<P> = Snapshot(
    profileName: string, phy: P, transport: Option<string>, ris: Option<RisPlan>, verify: Option<Guard>,
    contract: Values, hold: Option<nat>, cooldown: Option<nat>)

  /**
   What the executor asks of the rest of the program. `C` is the runtime context
   and `P` the radio profile.
   */
  datatype Env<!C, !P> = Env(
    matches: (seq<Predicate>, C) -> bool,
    basePhy: C -> P,
    presetName: P -> string,
    phyOf: Values -> Result<P, string>,
    nameOf: Values -> string,
    priorityOf: Values -> Option<string>,
    risOf: Values -> Result<RisPlan, string>,
    verifyOf: Values -> Result<Guard, string>,
    ticksOf: Values -> Result<nat, string>,
    defaultPriority: (C, string) -> string,
    below: (C, Guard) -> bool)

  // ---- The one pass ---------------------------------------------------------

  function Start<C, P>(env: Env<C, P>, c: C): Snapshot<P> {
    Snapshot(env.presetName(env.basePhy(c)), env.basePhy(c), None, None, None, [], None, None)
  }

  /** What one matching rule does to the snapshot. */
  function Apply<C, P(==)>(env: Env<C, P>, base: P, s: Snapshot<P>, r: Rule): Result<Snapshot<P>, string> {
    match r.kind
    case Contract => Ok(if s.contract == [] then s.(contract := r.values) else s)
    case Phy =>
      if s.phy != base then Ok(s)
      else (match env.phyOf(r.values)
            case Err(e) => Err(e)
            case Ok(phy) => Ok(s.(profileName := env.nameOf(r.values), phy := phy)))
    case Transport => Ok(if s.transport.None? then s.(transport := env.priorityOf(r.values)) else s)
    case Ris =>
      if s.ris.Some? then Ok(s)
      else (match env.risOf(r.values)
            case Err(e) => Err(e)
            case Ok(ris) => Ok(s.(ris := Some(ris))))
    case Verify =>
      if s.verify.Some? then Ok(s)
      else (match env.verifyOf(r.values)
            case Err(e) => Err(e)
            case Ok(verify) => Ok(s.(verify := Some(verify))))
    case Hold =>
      if s.hold.Some? then Ok(s)
      else (match env.ticksOf(r.values)
            case Err(e) => Err(e)
            case Ok(ticks) => Ok(s.(hold := Some(ticks))))
    case Cooldown =>
      if s.cooldown.Some? then Ok(s)
      else (match env.ticksOf(r.values)
            case Err(e) => Err(e)
            case Ok(ticks) => Ok(s.(cooldown := Some(ticks))))
    case Unknown(_) => Ok(s)
  }

  function Matching<C, P>(env: Env<C, P>, rules: seq<Rule>, c: C): seq<Rule> {
    if rules == [] then []
    else (if env.matches(rules[0].predicates, c) then [rules[0]] else []) + Matching(env, rules[1..], c)
  }

  function Fold<C, P(==)>(env: Env<C, P>, base: P, s: Snapshot<P>, rules: seq<Rule>): Result<Snapshot<P>, string>
    decreases |rules|
  {
    if rules == [] then Ok(s)
    else
      match Apply(env, base, s, rules[0])
      case Err(e) => Err(e)
      case Ok(s') => Fold(env, base, s', rules[1..])
  }

  // ---- Independent searches -------------------------------------------------

  /** The answer of the first rule that gives one. */
  function First<T>(rules: seq<Rule>, pick: Rule -> Option<T>): Option<T> {
    if rules == [] then None
    else if pick(rules[0]).Some? then pick(rules[0])
    else First(rules[1..], pick)
  }

  function PickContract(): Rule -> Option<Values> {
    (r: Rule) => if r.kind.Contract? && r.values != [] then Some(r.values) else None
  }

  function PickTransport<C, P>(env: Env<C, P>): Rule -> Option<string> {
    (r: Rule) => if r.kind.Transport? then env.priorityOf(r.values) else None
  }

  function PickRis<C, P>(env: Env<C, P>): Rule -> Option<Result<RisPlan, string>> {
    (r: Rule) => if r.kind.Ris? then Some(env.risOf(r.values)) else None
  }

  function PickVerify<C, P>(env: Env<C, P>): Rule -> Option<Result<Guard, string>> {
    (r: Rule) => if r.kind.Verify? then Some(env.verifyOf(r.values)) else None
  }

  function PickTicks<C, P>(env: Env<C, P>, kind: Kind): Rule -> Option<Result<nat, string>> {
    (r: Rule) => if r.kind == kind then Some(env.ticksOf(r.values)) else None
  }

  /** A profile that differs from the planner's, or a profile that cannot be read. */
  function PickPhy<C, P(==)>(env: Env<C, P>, base: P): Rule -> Option<Result<P, string>> {
    (r: Rule) => if r.kind.Phy? && env.phyOf(r.values) != Ok(base) then Some(env.phyOf(r.values)) else None
  }

  /** The name of the last profile tried: profiles equal to the planner's do not end the search. */
  function NameTried<C, P(==)>(env: Env<C, P>, base: P, name: string, rules: seq<Rule>): string
    decreases |rules|
  {
    if rules == [] then name
    else if !rules[0].kind.Phy? then NameTried(env, base, name, rules[1..])
    else if env.phyOf(rules[0].values) == Ok(base) then NameTried(env, base, env.nameOf(rules[0].values), rules[1..])
    else env.nameOf(rules[0].values)
  }

  predicate Readable<T>(slot: Option<Result<T, string>>) {
    slot.Some? ==> slot.value.Ok?
  }

  /** A slot already filled, or what its own search finds. */
  function Filled<T>(now: Option<T>, found: Option<Result<T, string>>): Option<T> {
    if now.Some? then now
    else if found.Some? && found.value.Ok? then Some(found.value.value)
    else None
  }

  /** Every slot still open finds something readable, or nothing. */
  predicate AllReadable<C, P(==)>(env: Env<C, P>, base: P, s: Snapshot<P>, rules: seq<Rule>) {
    && (s.phy == base ==> Readable(First(rules, PickPhy(env, base))))
    && (s.ris.None? ==> Readable(First(rules, PickRis(env))))
    && (s.verify.None? ==> Readable(First(rules, PickVerify(env))))
    && (s.hold.None? ==> Readable(First(rules, PickTicks(env, Hold))))
    && (s.cooldown.None? ==> Readable(First(rules, PickTicks(env, Cooldown))))
  }

  function FinalPhy<C, P(==)>(env: Env<C, P>, base: P, s: Snapshot<P>, rules: seq<Rule>): P {
    var found := First(rules, PickPhy(env, base));
    if s.phy == base && found.Some? && found.value.Ok? then found.value.value else s.phy
  }

  function FinalName<C, P(==)>(env: Env<C, P>, base: P, s: Snapshot<P>, rules: seq<Rule>): string {
    if s.phy == base then NameTried(env, base, s.profileName, rules) else s.profileName
  }

  function FinalTransport<C, P>(env: Env<C, P>, s: Snapshot<P>, rules: seq<Rule>): Option<string> {
    if s.transport.Some? then s.transport else First(rules, PickTransport(env))
  }

  function FinalContract<P>(s: Snapshot<P>, rules: seq<Rule>): Values {
    var found := First(rules, PickContract());
    if s.contract == [] && found.Some? then found.value else s.contract
  }

  /** The snapshot put together slot by slot. */
  function Search<C, P(==)>(env: Env<C, P>, base: P, s: Snapshot<P>, rules: seq<Rule>): Snapshot<P> {
    Snapshot(
      FinalName(env, base, s, rules),
      FinalPhy(env, base, s, rules),
      FinalTransport(env, s, rules),
      Filled(s.ris, First(rules, PickRis(env))),
      Filled(s.verify, First(rules, PickVerify(env))),
      FinalContract(s, rules),
      Filled(s.hold, First(rules, PickTicks(env, Hold))),
      Filled(s.cooldown, First(rules, PickTicks(env, Cooldown))))
  }

  /** What a rule leaves of a slot that `pick` fills. */
  function After<T>(now: Option<T>, r: Rule, pick: Rule -> Option<Result<T, string>>): Option<T> {
    Filled(now, pick(r))
  }

  lemma SlotStep<T>(now: Option<T>, rules: seq<Rule>, pick: Rule -> Option<Result<T, string>>)
    requires rules != [] && (now.None? ==> Readable(pick(rules[0])))
    ensures Filled(After(now, rules[0], pick), First(rules[1..], pick)) == Filled(now, First(rules, pick))
  {
  }

  ghost predicate AppliesTo<C, P>(env: Env<C, P>, base: P, s: Snapshot<P>, r: Rule, s': Snapshot<P>) {
    Apply(env, base, s, r) == Ok(s')
  }

  lemma SlotsAfter<C, P>(env: Env<C, P>, base: P, s: Snapshot<P>, r: Rule, s': Snapshot<P>)
    requires AppliesTo(env, base, s, r, s')
    ensures s'.ris == After(s.ris, r, PickRis(env)) && (s.ris.None? ==> Readable(PickRis(env)(r)))
    ensures s'.verify == After(s.verify, r, PickVerify(env)) && (s.verify.None? ==> Readable(PickVerify(env)(r)))
  {
  }

  lemma TicksAfter<C, P>(env: Env<C, P>, base: P, s: Snapshot<P>, r: Rule, s': Snapshot<P>)
    requires AppliesTo(env, base, s, r, s')
    ensures s'.hold == After(s.hold, r, PickTicks(env, Hold))
    ensures s.hold.None? ==> Readable(PickTicks(env, Hold)(r))
    ensures s'.cooldown == After(s.cooldown, r, PickTicks(env, Cooldown))
    ensures s.cooldown.None? ==> Readable(PickTicks(env, Cooldown)(r))
  {
  }

  lemma TextsAfter<C, P>(env: Env<C, P>, base: P, s: Snapshot<P>, r: Rule, s': Snapshot<P>)
    requires AppliesTo(env, base, s, r, s')
    ensures s'.transport == if s.transport.None? then PickTransport(env)(r) else s.transport
    ensures s'.contract == if s.contract == [] && PickContract()(r).Some? then PickContract()(r).value else s.contract
  {
  }

  lemma ProfileAfter<C, P>(env: Env<C, P>, base: P, s: Snapshot<P>, r: Rule, s': Snapshot<P>)
    requires AppliesTo(env, base, s, r, s')
    ensures s.phy != base || !r.kind.Phy? ==> s'.phy == s.phy && s'.profileName == s.profileName
    ensures s.phy == base && r.kind.Phy? ==> env.phyOf(r.values) == Ok(s'.phy) && s'.profileName == env.nameOf(r.values)
  {
  }

  lemma ProfileStep<C, P>(env: Env<C, P>, base: P, s: Snapshot<P>, rules: seq<Rule>, s': Snapshot<P>)
    requires rules != [] && AppliesTo(env, base, s, rules[0], s')
    ensures FinalPhy(env, base, s', rules[1..]) == FinalPhy(env, base, s, rules)
    ensures FinalName(env, base, s', rules[1..]) == FinalName(env, base, s, rules)
  {
    ProfileAfter(env, base, s, rules[0], s');
  }

  lemma TextsStep<C, P>(env: Env<C, P>, base: P, s: Snapshot<P>, rules: seq<Rule>, s': Snapshot<P>)
    requires rules != [] && AppliesTo(env, base, s, rules[0], s')
    ensures FinalTransport(env, s', rules[1..]) == FinalTransport(env, s, rules)
    ensures FinalContract(s', rules[1..]) == FinalContract(s, rules)
  {
    TextsAfter(env, base, s, rules[0], s');
  }

  /** Searching on after one rule is searching from before it. */
  lemma SearchStep<C, P>(env: Env<C, P>, base: P, s: Snapshot<P>, rules: seq<Rule>, s': Snapshot<P>)
    requires rules != [] && AppliesTo(env, base, s, rules[0], s')
    ensures Search(env, base, s', rules[1..]) == Search(env, base, s, rules)
  {
    SlotsAfter(env, base, s, rules[0], s');
    TicksAfter(env, base, s, rules[0], s');
    SlotStep(s.ris, rules, PickRis(env));
    SlotStep(s.verify, rules, PickVerify(env));
    SlotStep(s.hold, rules, PickTicks(env, Hold));
    SlotStep(s.cooldown, rules, PickTicks(env, Cooldown));
    TextsStep(env, base, s, rules, s');
    ProfileStep(env, base, s, rules, s');
  }

  lemma ReadableSlot<T>(now: Option<T>, rules: seq<Rule>, pick: Rule -> Option<Result<T, string>>)
    requires rules != [] && (now.None? ==> Readable(pick(rules[0])))
    ensures (now.None? ==> Readable(First(rules, pick))) <==>
            (After(now, rules[0], pick).None? ==> Readable(First(rules[1..], pick)))
  {
  }

  lemma ReadablePhy<C, P>(env: Env<C, P>, base: P, s: Snapshot<P>, rules: seq<Rule>, s': Snapshot<P>)
    requires rules != [] && AppliesTo(env, base, s, rules[0], s')
    ensures (s.phy == base ==> Readable(First(rules, PickPhy(env, base)))) <==>
            (s'.phy == base ==> Readable(First(rules[1..], PickPhy(env, base))))
  {
    ProfileAfter(env, base, s, rules[0], s');
  }

  lemma UnreadableFails<C, P>(env: Env<C, P>, base: P, s: Snapshot<P>, rules: seq<Rule>)
    requires rules != [] && Apply(env, base, s, rules[0]).Err?
    ensures !AllReadable(env, base, s, rules)
  {
    match rules[0].kind
    case Phy => assert !Readable(PickPhy(env, base)(rules[0]));
    case Ris => assert !Readable(PickRis(env)(rules[0]));
    case Verify => assert !Readable(PickVerify(env)(rules[0]));
    case Hold => assert !Readable(PickTicks(env, Hold)(rules[0]));
    case Cooldown => assert !Readable(PickTicks(env, Cooldown)(rules[0]));
    case _ =>
  }

  lemma ReadableStep<C, P>(env: Env<C, P>, base: P, s: Snapshot<P>, rules: seq<Rule>, s': Snapshot<P>)
    requires rules != [] && AppliesTo(env, base, s, rules[0], s')
    ensures AllReadable(env, base, s, rules) <==> AllReadable(env, base, s', rules[1..])
  {
    SlotsAfter(env, base, s, rules[0], s');
    TicksAfter(env, base, s, rules[0], s');
    ReadableSlot(s.ris, rules, PickRis(env));
    ReadableSlot(s.verify, rules, PickVerify(env));
    ReadableSlot(s.hold, rules, PickTicks(env, Hold));
    ReadableSlot(s.cooldown, rules, PickTicks(env, Cooldown));
    ReadablePhy(env, base, s, rules, s');
  }

  /**
   The one pass succeeds exactly when every slot's own search, in rule order,
   comes to something readable, and then every slot holds what that search finds.
   */
  lemma {:induction false} FoldIsSearch<C, P>(env: Env<C, P>, base: P, s: Snapshot<P>, rules: seq<Rule>)
    ensures Fold(env, base, s, rules).Ok? <==> AllReadable(env, base, s, rules)
    ensures Fold(env, base, s, rules).Ok? ==> Fold(env, base, s, rules).value == Search(env, base, s, rules)
    decreases |rules|
  {
    if rules != [] {
      var applied := Apply(env, base, s, rules[0]);
      if applied.Err? {
        UnreadableFails(env, base, s, rules);
      } else {
        ReadableStep(env, base, s, rules, applied.value);
        SearchStep(env, base, s, rules, applied.value);
        FoldIsSearch(env, base, applied.value, rules[1..]);
      }
    }
  }

  // ---- Decisions and windows ------------------------------------------------

  datatype Mode = Holding | CoolingDown

  datatype Window<P> = Window(stream: string, snapshot: Snapshot<P>, priority: string, remaining: nat, mode: Mode)

  datatype Decision<P> = Decision(priority: string, snapshot: Snapshot<P>, mode: Option<Mode>, reused: bool)

  function PriorityFor<C, P>(env: Env<C, P>, c: C, s: Snapshot<P>): string {
    if s.verify.Some? && env.below(c, s.verify.value) then s.verify.value.fallback
    else if s.transport.Some? then s.transport.value
    else env.defaultPriority(c, s.profileName)
  }

  /** The window a fresh decision opens; a hold of zero ticks also rules out a cooldown. */
  function Opens<P>(stream: string, s: Snapshot<P>, priority: string): Option<Window<P>> {
    if s.hold.Some? then
      if s.hold.value > 0 then Some(Window(stream, s, priority, s.hold.value, Holding)) else None
    else if s.cooldown.Some? && s.cooldown.value > 0 then
      Some(Window(stream, s, priority, s.cooldown.value, CoolingDown))
    else None
  }

  /** A decision from the rules, and the window it leaves behind. */
  function Fresh<C, P(==)>(env: Env<C, P>, rules: seq<Rule>, stream: string, c: C, t: Option<Window<P>>):
    (Result<Decision<P>, string>, Option<Window<P>>)
  {
    match Fold(env, env.basePhy(c), Start(env, c), Matching(env, rules, c))
    case Err(e) => (Err(e), t)
    case Ok(s) =>
      var priority := PriorityFor(env, c, s);
      var window := Opens(stream, s, priority);
      (Ok(Decision(priority, s, if window.Some? then Some(window.value.mode) else None, false)),
       if window.Some? then window else t)
  }

  /**
   Which priority a decision carries: the fallback of its guard if the guarded
   metric is below its minimum, whatever the transport says; otherwise the
   transport's, if there is one; otherwise the default for its profile.
   */
  predicate Prioritised<C, P>(env: Env<C, P>, c: C, d: Decision<P>) {
    && (d.snapshot.verify.Some? && env.below(c, d.snapshot.verify.value) ==>
          d.priority == d.snapshot.verify.value.fallback)
    && (!(d.snapshot.verify.Some? && env.below(c, d.snapshot.verify.value)) ==>
          && (d.snapshot.transport.Some? ==> d.priority == d.snapshot.transport.value)
          && (d.snapshot.transport.None? ==> d.priority == env.defaultPriority(c, d.snapshot.profileName)))
  }

  /**
   Which window a decision opens: a hold of some ticks one of that many, no hold
   but a cooldown of some ticks one of that many, and anything else - a hold of
   zero ticks beside any cooldown included - none.
   */
  predicate Timed<P(==)>(stream: string, d: Decision<P>, t: Option<Window<P>>) {
    && (d.mode == Some(Holding) <==> d.snapshot.hold.Some? && d.snapshot.hold.value > 0)
    && (d.mode == Some(CoolingDown) <==>
          d.snapshot.hold.None? && d.snapshot.cooldown.Some? && d.snapshot.cooldown.value > 0)
    && (d.mode == Some(Holding) ==>
          t == Some(Window(stream, d.snapshot, d.priority, d.snapshot.hold.value, Holding)))
    && (d.mode == Some(CoolingDown) ==>
          t == Some(Window(stream, d.snapshot, d.priority, d.snapshot.cooldown.value, CoolingDown)))
  }

  lemma FreshAnswers<C, P>(env: Env<C, P>, rules: seq<Rule>, stream: string, c: C, t: Option<Window<P>>)
    ensures var (r, t') := Fresh(env, rules, stream, c, t);
            r.Ok? ==> Prioritised(env, c, r.value) && Timed(stream, r.value, t') && !r.value.reused
                      && (r.value.mode == None ==> t' == t)
  {
  }

  predicate Active<P>(t: Option<Window<P>>, stream: string) {
    t.Some? && t.value.stream == stream && t.value.remaining > 0
  }

  /** What an open window answers. */
  function Remembered<P>(w: Window<P>): Decision<P> {
    Decision(w.priority, w.snapshot, Some(w.mode), true)
  }

  /** One call of `execute`. */
  function Respond<C, P(==)>(env: Env<C, P>, rules: seq<Rule>, stream: string, c: C, t: Option<Window<P>>):
    (Result<Decision<P>, string>, Option<Window<P>>)
  {
    if Active(t, stream) then
      (Ok(Remembered(t.value)),
       if t.value.remaining > 1 then Some(t.value.(remaining := t.value.remaining - 1)) else None)
    else Fresh(env, rules, stream, c, t)
  }

  class ExecutorState<P(==)> {
    var temporal: Option<Window<P>>

    constructor ()
      ensures temporal == None
    {
      temporal := None;
    }
  }

  class Executor<!C, !P(==)> {
    const env: Env<C, P>
    const rules: seq<Rule>

    constructor (env: Env<C, P>, rules: seq<Rule>)
      ensures this.env == env && this.rules == rules
    {
      this.env := env;
      this.rules := rules;
    }

    /** The loop over the rules. */
    method FillSnapshot(c: C) returns (r: Result<Snapshot<P>, string>)
      ensures r == Fold(env, env.basePhy(c), Start(env, c), Matching(env, rules, c))
    {
      var base := env.basePhy(c);
      var snapshot := Start(env, c);
      ghost var goal := Fold(env, base, snapshot, Matching(env, rules, c));
      for k := 0 to |rules|
        invariant Fold(env, base, snapshot, Matching(env, rules[k..], c)) == goal
      {
        assert rules[k..][0] == rules[k] && rules[k..][1..] == rules[k + 1..];
        MatchingCons(env, rules[k..], c);
        if env.matches(rules[k].predicates, c) {
          var applied := Apply(env, base, snapshot, rules[k]);
          if applied.Err? {
            return Err(applied.error);
          }
          snapshot := applied.value;
        }
      }
      assert rules[|rules|..] == [];
      r := Ok(snapshot);
    }

    /** `execute`. */
    method Execute(stream: string, c: C, state: ExecutorState<P>) returns (r: Result<Decision<P>, string>)
      modifies state
      ensures (r, state.temporal) == Respond(env, rules, stream, c, old(state.temporal))
      ensures r.Ok? && !r.value.reused ==> Prioritised(env, c, r.value) && Timed(stream, r.value, state.temporal)
      ensures r.Ok? ==> (r.value.reused <==> old(state.temporal.Some? && state.temporal.value.stream == stream
                                                 && state.temporal.value.remaining > 0))
    {
      FreshAnswers(env, rules, stream, c, state.temporal);
      if state.temporal.Some? {
        var active := state.temporal.value;
        state.temporal := None;
        if active.stream == stream && active.remaining > 0 {
          active := active.(remaining := active.remaining - 1);
          if active.remaining > 0 {
            state.temporal := Some(active);
          }
          return Ok(Remembered(active));
        }
        state.temporal := Some(active);
      }
      var filled := FillSnapshot(c);
      if filled.Err? {
        return Err(filled.error);
      }
      var snapshot := filled.value;
      var priority := PriorityFor(env, c, snapshot);
      var mode: Option<Mode> := None;
      if snapshot.hold.Some? {
        if snapshot.hold.value > 0 {
          state.temporal := Some(Window(stream, snapshot, priority, snapshot.hold.value, Holding));
          mode := Some(Holding);
        }
      } else if snapshot.cooldown.Some? {
        if snapshot.cooldown.value > 0 {
          state.temporal := Some(Window(stream, snapshot, priority, snapshot.cooldown.value, CoolingDown));
          mode := Some(CoolingDown);
        }
      }
      r := Ok(Decision(priority, snapshot, mode, false));
    }
  }

  lemma MatchingCons<C, P>(env: Env<C, P>, rules: seq<Rule>, c: C)
    requires rules != []
    ensures var ms := Matching(env, rules, c);
            if env.matches(rules[0].predicates, c)
            then ms != [] && ms[0] == rules[0] && ms[1..] == Matching(env, rules[1..], c)
            else ms == Matching(env, rules[1..], c)
  {
  }

  /** What a successful fresh decision holds, slot by slot, whatever order the slots were filled in. */
  lemma FreshIsSearch<C, P>(env: Env<C, P>, rules: seq<Rule>, stream: string, c: C, t: Option<Window<P>>)
    ensures var base, start, matching := env.basePhy(c), Start(env, c), Matching(env, rules, c);
            && (Fresh(env, rules, stream, c, t).0.Ok? <==> AllReadable(env, base, start, matching))
            && (Fresh(env, rules, stream, c, t).0.Ok? ==>
                  Fresh(env, rules, stream, c, t).0.value.snapshot == Search(env, base, start, matching))
            && (Fresh(env, rules, stream, c, t).0.Err? ==> Fresh(env, rules, stream, c, t).1 == t)
  {
    FoldIsSearch(env, env.basePhy(c), Start(env, c), Matching(env, rules, c));
  }

  /** With no matching rule the answer is the planner's profile and the default priority, and nothing is stored. */
  lemma NothingMatches<C, P>(env: Env<C, P>, rules: seq<Rule>, stream: string, c: C, t: Option<Window<P>>)
    requires forall k :: 0 <= k < |rules| ==> !env.matches(rules[k].predicates, c)
    ensures var name := env.presetName(env.basePhy(c));
            Fresh(env, rules, stream, c, t) ==
            (Ok(Decision(env.defaultPriority(c, name),
                         Snapshot(name, env.basePhy(c), None, None, None, [], None, None), None, false)), t)
  {
    NoneMatch(env, rules, c);
  }

  lemma {:induction false} NoneMatch<C, P>(env: Env<C, P>, rules: seq<Rule>, c: C)
    requires forall k :: 0 <= k < |rules| ==> !env.matches(rules[k].predicates, c)
    ensures Matching(env, rules, c) == []
  {
    if rules != [] {
      NoneMatch(env, rules[1..], c);
    }
  }

  /** Only matching rules count, and they keep their order. */
  lemma {:induction false} MatchingIs<C, P>(env: Env<C, P>, before: seq<Rule>, r: Rule, after: seq<Rule>, c: C)
    ensures Matching(env, before + [r] + after, c) ==
            Matching(env, before, c) + (if env.matches(r.predicates, c) then [r] else []) + Matching(env, after, c)
  {
    if before == [] {
      assert before + [r] + after == [r] + after && ([r] + after)[1..] == after;
    } else {
      MatchingIs(env, before[1..], r, after, c);
      assert (before + [r] + after)[1..] == before[1..] + [r] + after;
    }
  }

  // ---- Whole runs -----------------------------------------------------------

  /** Each call may come with its own rules: windows do not depend on them. */
  datatype Call<C> = Call(rules: seq<Rule>, stream: string, context: C)

  function StateAfter<C, P(==)>(env: Env<C, P>, t: Option<Window<P>>, calls: seq<Call<C>>): Option<Window<P>> {
    if calls == [] then t
    else
      var last := calls[|calls| - 1];
      Respond(env, last.rules, last.stream, last.context, StateAfter(env, t, calls[..|calls| - 1])).1
  }

  function Answer<C, P(==)>(env: Env<C, P>, t: Option<Window<P>>, calls: seq<Call<C>>, call: Call<C>):
    Result<Decision<P>, string>
  {
    Respond(env, call.rules, call.stream, call.context, StateAfter(env, t, calls)).0
  }

  ghost predicate StateOk<P>(t: Option<Window<P>>) {
    t.Some? ==> t.value.remaining > 0
  }

  /** In every state reachable from the empty one, a stored window has ticks left. */
  lemma {:induction false} WindowsHaveTicks<C, P>(env: Env<C, P>, t: Option<Window<P>>, calls: seq<Call<C>>)
    requires StateOk(t)
    ensures StateOk(StateAfter(env, t, calls))
    decreases |calls|
  {
    if calls != [] {
      WindowsHaveTicks(env, t, calls[..|calls| - 1]);
    }
  }

  /** A failed call leaves the state as it was. */
  lemma FailureKeepsState<C, P>(env: Env<C, P>, rules: seq<Rule>, stream: string, c: C, t: Option<Window<P>>)
    ensures Respond(env, rules, stream, c, t).0.Err? ==> Respond(env, rules, stream, c, t).1 == t
  {
  }

  function CallsOf<C>(calls: seq<Call<C>>, stream: string): nat {
    if calls == [] then 0
    else CallsOf(calls[..|calls| - 1], stream) + (if calls[|calls| - 1].stream == stream then 1 else 0)
  }

  /** The call opens no window of its own in place of the one stored. */
  ghost predicate LeavesWindow<C, P>(env: Env<C, P>, stream: string, call: Call<C>) {
    call.stream == stream || Fresh(env, call.rules, call.stream, call.context, None).1 == None
  }

  /** What one call makes of a window that lasts. */
  lemma OneCall<C, P>(env: Env<C, P>, t: Option<Window<P>>, w: Window<P>, made: nat, call: Call<C>)
    requires LeavesWindow(env, w.stream, call) && w.remaining > 0
    requires t == if made < w.remaining then Some(w.(remaining := w.remaining - made)) else None
    ensures var made' := if call.stream == w.stream then made + 1 else made;
            made' <= w.remaining ==>
              Respond(env, call.rules, call.stream, call.context, t).1 ==
              if made' < w.remaining then Some(w.(remaining := w.remaining - made')) else None
  {
  }

  lemma {:induction false} WindowCountsDown<C, P>(env: Env<C, P>, w: Window<P>, calls: seq<Call<C>>)
    requires forall k :: 0 <= k < |calls| ==> LeavesWindow(env, w.stream, calls[k])
    requires CallsOf(calls, w.stream) <= w.remaining && w.remaining > 0
    ensures StateAfter(env, Some(w), calls) ==
            if CallsOf(calls, w.stream) < w.remaining
            then Some(w.(remaining := w.remaining - CallsOf(calls, w.stream)))
            else None
    decreases |calls|
  {
    if calls != [] {
      var init, last := calls[..|calls| - 1], calls[|calls| - 1];
      assert LeavesWindow(env, w.stream, last);
      WindowCountsDown(env, w, init);
      OneCall(env, StateAfter(env, Some(w), init), w, CallsOf(init, w.stream), last);
    }
  }

  /**
   Once a window of `n` ticks is open, its stream's next `n` calls return the
   remembered snapshot and priority, whatever their rules and contexts and
   however the calls of other streams are mixed in, as long as none of those
   opens a window of its own; after them no window is left.
   */
  lemma WindowLasts<C, P>(env: Env<C, P>, w: Window<P>, calls: seq<Call<C>>, next: Call<C>)
    requires forall k :: 0 <= k < |calls| ==> LeavesWindow(env, w.stream, calls[k])
    requires CallsOf(calls, w.stream) <= w.remaining && w.remaining > 0
    ensures CallsOf(calls, w.stream) < w.remaining && next.stream == w.stream ==>
              Answer(env, Some(w), calls, next) == Ok(Remembered(w))
    ensures CallsOf(calls, w.stream) == w.remaining ==> StateAfter(env, Some(w), calls) == None
  {
    WindowCountsDown(env, w, calls);
  }

  /** A fresh decision with ticks to hold or cool down opens exactly that window. */
  lemma FreshOpensWindow<C, P>(env: Env<C, P>, rules: seq<Rule>, stream: string, c: C, t: Option<Window<P>>)
    ensures var (r, t') := Fresh(env, rules, stream, c, t);
            r.Ok? && r.value.mode.Some? ==>
              && t'.Some? && t'.value.stream == stream && t'.value.remaining > 0
              && Remembered(t'.value) == r.value.(reused := true)
              && t'.value.remaining == (if r.value.mode.value.Holding? then r.value.snapshot.hold.value
                                        else r.value.snapshot.cooldown.value)
  {
  }

  // ---- Searches answer from the first rule that can -------------------------

  lemma {:induction false} FirstPosition<T>(rules: seq<Rule>, pick: Rule -> Option<T>) returns (k: nat)
    requires First(rules, pick).Some?
    ensures k < |rules| && pick(rules[k]) == First(rules, pick)
    ensures forall j :: 0 <= j < k ==> pick(rules[j]).None?
  {
    if pick(rules[0]).Some? {
      k := 0;
    } else {
      k := FirstPosition(rules[1..], pick);
      assert forall j :: 0 < j <= k ==> rules[j] == rules[1..][j - 1];
      k := k + 1;
    }
  }
}

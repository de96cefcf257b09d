/** The no_std rule executor of raman-core/src/lib.rs. */
module CoreExecutor {
  import opened ByteCodec
  import opened Outcome

  datatype FieldId =
    | Minute | SnrX10 | Density | KnowledgeMatchQ | NoiseQ | FluxStableQ
    | BatteryMv | BatteryPct | JammingDetected | TrafficClass | Hardware | Scenario

  datatype CompareOp = Eq | Ne | Lt | Le | Gt | Ge

  datatype Predicate = Predicate(field: FieldId, op: CompareOp, value: int32)

  datatype Action = Action(profileId: nat, transportId: nat, risId: nat, holdTicks: byte, cooldownTicks: byte)

  datatype Rule = Rule(priority: int, order: nat, predicates: seq<Predicate>, action: Action)

  /** Symbol ids are 32-bit words, compared after a cast to signed. */
  type symbol = x: int | 0 <= x < 0x1_0000_0000

  datatype Context = Context(
    minute: int32, snrX10: int32, density: int32, knowledgeMatchQ: int32, noiseQ: int32, fluxStableQ: int32,
    batteryMv: int32, batteryPct: int32, jammingDetected: bool,
    trafficId: symbol, hardwareId: symbol, scenarioId: symbol)

  function AsSigned(x: symbol): int32 {
    if x < 0x8000_0000 then x else x - 0x1_0000_0000
  }

  function FieldValue(field: FieldId, c: Context): int32 {
    match field
    case Minute => c.minute
    case SnrX10 => c.snrX10
    case Density => c.density
    case KnowledgeMatchQ => c.knowledgeMatchQ
    case NoiseQ => c.noiseQ
    case FluxStableQ => c.fluxStableQ
    case BatteryMv => c.batteryMv
    case BatteryPct => c.batteryPct
    case JammingDetected => if c.jammingDetected then 1 else 0
    case TrafficClass => AsSigned(c.trafficId)
    case Hardware => AsSigned(c.hardwareId)
    case Scenario => AsSigned(c.scenarioId)
  }

  predicate PredicateMatches(p: Predicate, c: Context) {
    var left := FieldValue(p.field, c);
    match p.op
    case Eq => left == p.value
    case Ne => left != p.value
    case Lt => left < p.value
    case Le => left <= p.value
    case Gt => left > p.value
    case Ge => left >= p.value
  }

  predicate RuleMatches(r: Rule, c: Context) {
    forall k :: 0 <= k < |r.predicates| ==> PredicateMatches(r.predicates[k], c)
  }

  // ---- Selection ------------------------------------------------------------

  /** `a` is chosen over `b` whatever their positions. */
  predicate Beats(a: Rule, b: Rule) {
    a.priority > b.priority || (a.priority == b.priority && a.order < b.order)
  }

  /** Rule `i` matches, nothing matching beats it, and nothing earlier ties with it. */
  ghost predicate IsBest(rules: seq<Rule>, c: Context, i: nat) {
    && i < |rules| && RuleMatches(rules[i], c)
    && (forall j :: 0 <= j < |rules| && RuleMatches(rules[j], c) ==> !Beats(rules[j], rules[i]))
    && (forall j :: 0 <= j < i && RuleMatches(rules[j], c) ==> Beats(rules[i], rules[j]))
  }

  ghost predicate NoneMatches(rules: seq<Rule>, c: Context) {
    forall j :: 0 <= j < |rules| ==> !RuleMatches(rules[j], c)
  }

  /** The one best position, if any rule matches. */
  ghost function Selection(rules: seq<Rule>, c: Context): Option<nat> {
    if i: nat :| IsBest(rules, c, i) then Some(i) else None
  }

  lemma BestIsUnique(rules: seq<Rule>, c: Context, i: nat, j: nat)
    requires IsBest(rules, c, i) && IsBest(rules, c, j)
    ensures i == j
  {
  }

  method ScanBest(rules: seq<Rule>, c: Context) returns (best: Option<nat>)
    ensures best.Some? ==> IsBest(rules, c, best.value)
    ensures best.None? ==> NoneMatches(rules, c)
    ensures best == Selection(rules, c)
  {
    best := None;
    for k := 0 to |rules|
      invariant best.Some? ==> best.value < k && IsBest(rules[..k], c, best.value)
      invariant best.None? ==> NoneMatches(rules[..k], c)
    {
      if RuleMatches(rules[k], c) {
        if best.None? || Beats(rules[k], rules[best.value]) {
          best := Some(k);
        }
      }
      assert forall j :: 0 <= j < k ==> rules[..k + 1][j] == rules[..k][j];
    }
    assert rules[..|rules|] == rules;
    if best.Some? {
      ghost var i: nat :| IsBest(rules, c, i) && Selection(rules, c) == Some(i);
      BestIsUnique(rules, c, i, best.value);
    }
  }

  // ---- Execution ------------------------------------------------------------

  datatype Decision = Decision(priority: int, order: nat, action: Action, reused: bool)

  datatype State = State(
    active: Option<Action>, priority: int, order: nat, hold: byte, cooldown: byte)

  const DEFAULT: State := State(None, 0, 0, 0, 0)

  function Replay(s: State, action: Action): Decision {
    Decision(s.priority, s.order, action, true)
  }

  /** One call of `execute`, as a function of the state before it. */
  ghost function Execute(rules: seq<Rule>, c: Context, s: State): (Option<Decision>, State) {
    if s.hold > 0 && s.active.Some? then (Some(Replay(s, s.active.value)), s.(hold := s.hold - 1))
    else
      var s1 := if s.hold > 0 then s.(hold := s.hold - 1) else s;
      if s1.cooldown > 0 && s1.active.Some? then
        (Some(Replay(s1, s1.active.value)), s1.(cooldown := s1.cooldown - 1))
      else
        match Selection(rules, c)
        case None => (None, DEFAULT)
        case Some(i) => Fresh(rules, c, i)
  }

  ghost function Fresh(rules: seq<Rule>, c: Context, i: nat): (Option<Decision>, State) {
    if i >= |rules| then (None, DEFAULT)
    else
      var r := rules[i];
      (Some(Decision(r.priority, r.order, r.action, false)),
       State(Some(r.action), r.priority, r.order, r.action.holdTicks, r.action.cooldownTicks))
  }

  class Executor {
    const rules: seq<Rule>
    var active: Option<Action>
    var activePriority: int
    var activeOrder: nat
    var remainingHold: byte
    var remainingCooldown: byte

    function View(): State
      reads this
    {
      State(active, activePriority, activeOrder, remainingHold, remainingCooldown)
    }

    constructor (rules: seq<Rule>)
      ensures this.rules == rules && View() == DEFAULT
    {
      this.rules := rules;
      active := None;
      activePriority, activeOrder := 0, 0;
      remainingHold, remainingCooldown := 0, 0;
    }

    method Run(c: Context) returns (decision: Option<Decision>)
      modifies this
      ensures (decision, View()) == Execute(rules, c, old(View()))
    {
      if remainingHold > 0 {
        remainingHold := remainingHold - 1;
        if active.Some? {
          return Some(Decision(activePriority, activeOrder, active.value, true));
        }
      }
      if remainingCooldown > 0 {
        remainingCooldown := remainingCooldown - 1;
        if active.Some? {
          return Some(Decision(activePriority, activeOrder, active.value, true));
        }
      }
      var best := ScanBest(rules, c);
      if best.None? {
        active := None;
        activePriority := 0;
        activeOrder := 0;
        remainingHold := 0;
        remainingCooldown := 0;
        return None;
      }
      var selected := rules[best.value];
      activePriority := selected.priority;
      activeOrder := selected.order;
      active := Some(selected.action);
      remainingHold := selected.action.holdTicks;
      remainingCooldown := selected.action.cooldownTicks;
      decision := Some(Decision(selected.priority, selected.order, selected.action, false));
    }
  }

  // ---- Whole runs -----------------------------------------------------------

  /** The state after a run of calls. */
  ghost function After(rules: seq<Rule>, s: State, contexts: seq<Context>): State {
    if contexts == [] then s
    else Execute(rules, contexts[|contexts| - 1], After(rules, s, contexts[..|contexts| - 1])).1
  }

  /** A positive counter always has an action to replay. */
  lemma {:induction false} CountersHaveActions(rules: seq<Rule>, contexts: seq<Context>)
    ensures var s := After(rules, DEFAULT, contexts);
      s.hold > 0 || s.cooldown > 0 ==> s.active.Some?
    decreases |contexts|
  {
    if contexts != [] {
      CountersHaveActions(rules, contexts[..|contexts| - 1]);
    }
  }

  /** Ticks left to replay. */
  function Ticks(s: State): nat {
    s.hold + s.cooldown
  }

  /**
   From a state with an action and `t` ticks, each of the next `t` calls replays
   that action and its priority and order, whatever the contexts, and uses one tick.
   */
  lemma {:induction false} ReplaysForTicks(rules: seq<Rule>, s: State, contexts: seq<Context>, next: Context)
    requires s.active.Some? && |contexts| < Ticks(s)
    ensures var now := After(rules, s, contexts);
      && now.active == s.active && now.priority == s.priority && now.order == s.order
      && Ticks(now) == Ticks(s) - |contexts|
      && Execute(rules, next, now).0 == Some(Replay(s, s.active.value))
    decreases |contexts|
  {
    if contexts != [] {
      ReplaysForTicks(rules, s, contexts[..|contexts| - 1], contexts[|contexts| - 1]);
    }
  }

  /**
   A fresh decision with hold h and cooldown c is replayed on exactly the next
   h + c calls; the call after them scans the rules again.
   */
  lemma FreshDecisionLastsExactly(rules: seq<Rule>, s: State, first: Context, contexts: seq<Context>, next: Context)
    requires Execute(rules, first, s).0.Some? && !Execute(rules, first, s).0.value.reused
    ensures var d, s1 := Execute(rules, first, s).0.value, Execute(rules, first, s).1;
      && (|contexts| < d.action.holdTicks + d.action.cooldownTicks ==>
            Execute(rules, next, After(rules, s1, contexts)).0 == Some(d.(reused := true)))
      && (|contexts| == d.action.holdTicks + d.action.cooldownTicks ==>
            Execute(rules, next, After(rules, s1, contexts)) == Execute(rules, next, DEFAULT))
  {
    var d, s1 := Execute(rules, first, s).0.value, Execute(rules, first, s).1;
    if |contexts| < Ticks(s1) {
      ReplaysForTicks(rules, s1, contexts, next);
    } else if |contexts| == Ticks(s1) && contexts != [] {
      var rest := contexts[..|contexts| - 1];
      ReplaysForTicks(rules, s1, rest, contexts[|contexts| - 1]);
      assert Ticks(After(rules, s1, contexts)) == 0;
    }
  }

  /** A scan that finds nothing leaves exactly the default state. */
  lemma NoMatchRestoresDefault(rules: seq<Rule>, c: Context, s: State)
    requires Execute(rules, c, s).0.None?
    ensures Execute(rules, c, s).1 == DEFAULT
    ensures NoneMatches(rules, c)
  {
    if !NoneMatches(rules, c) {
      var i := SomeBest(rules, c, |rules|);
    }
  }

  lemma {:induction false} SomeBest(rules: seq<Rule>, c: Context, k: nat) returns (i: nat)
    requires k <= |rules| && !NoneMatches(rules[..k], c)
    ensures IsBest(rules[..k], c, i)
    ensures k == |rules| ==> IsBest(rules, c, i)
  {
    var last := k - 1;
    assert forall j :: 0 <= j < last ==> rules[..k][j] == rules[..last][j];
    if NoneMatches(rules[..last], c) {
      i := last;
    } else {
      i := SomeBest(rules, c, last);
      if RuleMatches(rules[last], c) && Beats(rules[last], rules[i]) {
        i := last;
      }
    }
    if k == |rules| {
      assert rules[..k] == rules;
    }
  }

  // ---- What is compared with what -------------------------------------------

  /**
   The six operators are the order of the integers: which of them hold of a field
   is read off the sign of its difference from the value.
   */
  lemma OperatorsCompare(field: FieldId, value: int32, c: Context)
    ensures var d: int := FieldValue(field, c) as int - value as int;
      && (PredicateMatches(Predicate(field, Eq, value), c) <==> d == 0)
      && (PredicateMatches(Predicate(field, Ne, value), c) <==> d != 0)
      && (PredicateMatches(Predicate(field, Lt, value), c) <==> d < 0)
      && (PredicateMatches(Predicate(field, Le, value), c) <==> d <= 0)
      && (PredicateMatches(Predicate(field, Gt, value), c) <==> d > 0)
      && (PredicateMatches(Predicate(field, Ge, value), c) <==> d >= 0)
  {
  }

  /** A rule matches exactly if every one of its predicates does. */
  lemma AllPredicates(r: Rule, c: Context)
    ensures RuleMatches(r, c) <==> forall p :: p in r.predicates ==> PredicateMatches(p, c)
  {
    forall k | 0 <= k < |r.predicates|
      ensures r.predicates[k] in r.predicates
    {
    }
  }

  /** Each field is its own measurement: another measurement never moves it. */
  lemma FieldsAre(c: Context)
    ensures FieldValue(Minute, c) == c.minute && FieldValue(SnrX10, c) == c.snrX10
    ensures FieldValue(Density, c) == c.density && FieldValue(KnowledgeMatchQ, c) == c.knowledgeMatchQ
    ensures FieldValue(NoiseQ, c) == c.noiseQ && FieldValue(FluxStableQ, c) == c.fluxStableQ
    ensures FieldValue(BatteryMv, c) == c.batteryMv && FieldValue(BatteryPct, c) == c.batteryPct
    ensures FieldValue(JammingDetected, c) == 1 <==> c.jammingDetected
    ensures FieldValue(JammingDetected, c) == 0 <==> !c.jammingDetected
    ensures (c.trafficId as int - FieldValue(TrafficClass, c) as int) % 0x1_0000_0000 == 0
    ensures (c.hardwareId as int - FieldValue(Hardware, c) as int) % 0x1_0000_0000 == 0
    ensures (c.scenarioId as int - FieldValue(Scenario, c) as int) % 0x1_0000_0000 == 0
  {
  }

  /** A remembered action is replayed for its hold ticks first, then for its cooldown ticks, one tick a call. */
  lemma HoldsFirst(rules: seq<Rule>, c: Context, s: State)
    requires s.active.Some?
    ensures s.hold > 0 ==>
              Execute(rules, c, s) == (Some(Decision(s.priority, s.order, s.active.value, true)),
                                       State(s.active, s.priority, s.order, s.hold - 1, s.cooldown))
    ensures s.hold == 0 && s.cooldown > 0 ==>
              Execute(rules, c, s) == (Some(Decision(s.priority, s.order, s.active.value, true)),
                                       State(s.active, s.priority, s.order, 0, s.cooldown - 1))
  {
  }

  /**
   What a call that scans decides: the action of a rule all of whose predicates
   hold, of the highest priority among those, of the least order in that
   priority, and the first in the list among equals; with no such rule it answers
   nothing.
   */
  lemma ScanDecides(rules: seq<Rule>, c: Context)
    ensures var (decision, s) := Execute(rules, c, DEFAULT);
      && (decision.None? <==> forall j :: 0 <= j < |rules| ==> !RuleMatches(rules[j], c))
      && (decision.Some? ==> exists i :: 0 <= i < |rules| && Decides(rules, c, i, decision.value, s))
  {
    if !NoneMatches(rules, c) {
      assert rules[..|rules|] == rules;
      var i := SomeBest(rules, c, |rules|);
      var k := Selection(rules, c).value;
      assert IsBest(rules, c, k);
      assert Leads(rules, c, k);
      assert Decides(rules, c, k, Execute(rules, c, DEFAULT).0.value, Execute(rules, c, DEFAULT).1);
    }
  }

  /** The decision is the action of this matching rule that leads, and its counters start from that action's. */
  ghost predicate Decides(rules: seq<Rule>, c: Context, i: nat, d: Decision, s: State)
    requires i < |rules|
  {
    && RuleMatches(rules[i], c) && Leads(rules, c, i)
    && d == Decision(rules[i].priority, rules[i].order, rules[i].action, false)
    && s == State(Some(rules[i].action), rules[i].priority, rules[i].order,
                  rules[i].action.holdTicks, rules[i].action.cooldownTicks)
  }

  /** No matching rule has a higher priority, nor this priority and a lesser order; equals come later. */
  ghost predicate Leads(rules: seq<Rule>, c: Context, i: nat)
    requires i < |rules|
  {
    forall j :: 0 <= j < |rules| && RuleMatches(rules[j], c) ==>
      && rules[j].priority <= rules[i].priority
      && (rules[j].priority == rules[i].priority ==>
            rules[i].order <= rules[j].order && (rules[i].order == rules[j].order ==> i <= j))
  }
}

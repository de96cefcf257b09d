/**
 The open-addressed account table of src/bin/hyperion_grpc_server.rs, shared by
 any number of `ensure_account_slot` calls. Every atomic load and every
 compare-exchange is one step, and steps of different calls interleave freely.
 */
module SlotTable {

  /** Where one call of `ensure_account_slot` has got to. */
  datatype Call =
    | Loading(tag: nat, probes: nat)   // about to load the tag of its current slot
    | Claiming(tag: nat, probes: nat)  // loaded 0 there, about to compare-exchange
    | Found(tag: nat, slot: nat)
    | Exhausted(tag: nat)

  /** `tags` is the table, 0 a free slot; `calls` are all calls made so far. */
  datatype Table = Table(tags: seq<nat>, calls: seq<Call>)

  /** The slot a tag reaches after `k` probes: its home, then onwards cyclically. */
  function Probe(size: nat, tag: nat, k: nat): (slot: nat)
    requires k < size
    ensures slot < size
  {
    var home := tag % size;
    if home + k < size then home + k else home + k - size
  }

  /** `Probe` is the loop's own `slot = tag % len`, then `slot = (slot + 1) % len`. */
  lemma ProbeIsTheLoop(size: nat, tag: nat, k: nat)
    requires k + 1 < size
    ensures Probe(size, tag, 0) == tag % size
    ensures Probe(size, tag, k + 1) == (Probe(size, tag, k) + 1) % size
  {
    var slot := Probe(size, tag, k) + 1;
    if slot == size {
      assert slot % size == 0;
    }
  }

  function Miss(size: nat, tag: nat, probes: nat): Call {
    if probes + 1 == size then Exhausted(tag) else Loading(tag, probes + 1)
  }

  ghost predicate Init(t: Table) {
    |t.tags| > 0 && t.calls == [] && forall k :: 0 <= k < |t.tags| ==> t.tags[k] == 0
  }

  /** `account_tag` never returns 0, so 0 is free to mean an empty slot. */
  ghost predicate Start(t: Table, t': Table, tag: nat) {
    tag != 0 && t' == t.(calls := t.calls + [Loading(tag, 0)])
  }

  ghost predicate Load(t: Table, t': Table, c: nat) {
    && c < |t.calls| && t.calls[c].Loading? && t.calls[c].probes < |t.tags|
    && var call := t.calls[c];
       var slot := Probe(|t.tags|, call.tag, call.probes);
       var current := t.tags[slot];
       t' == t.(calls := t.calls[c :=
         if current == call.tag then Found(call.tag, slot)
         else if current == 0 then Claiming(call.tag, call.probes)
         else Miss(|t.tags|, call.tag, call.probes)])
  }

  ghost predicate CompareExchange(t: Table, t': Table, c: nat) {
    && c < |t.calls| && t.calls[c].Claiming? && t.calls[c].probes < |t.tags|
    && var call := t.calls[c];
       var slot := Probe(|t.tags|, call.tag, call.probes);
       var existing := t.tags[slot];
       t' == Table(
         if existing == 0 then t.tags[slot := call.tag] else t.tags,
         t.calls[c :=
           if existing == 0 || existing == call.tag then Found(call.tag, slot)
           else Miss(|t.tags|, call.tag, call.probes)])
  }

  ghost predicate Next(t: Table, t': Table) {
    || (exists tag: nat :: Start(t, t', tag))
    || (exists c: nat :: Load(t, t', c))
    || (exists c: nat :: CompareExchange(t, t', c))
  }

  ghost predicate Run(run: seq<Table>) {
    && run != [] && Init(run[0])
    && (forall i :: 0 <= i < |run| - 1 ==> Next(run[i], run[i + 1]))
  }

  // ---- The invariant --------------------------------------------------------

  /** No slot among the first `k` probes of `tag` is free or holds `tag`. */
  ghost predicate PathTaken(tags: seq<nat>, tag: nat, k: nat)
    requires k <= |tags|
  {
    forall j: nat :: j < k ==> tags[Probe(|tags|, tag, j)] != 0 && tags[Probe(|tags|, tag, j)] != tag
  }

  /** Every stored tag sits where probing for it from its home stops first. */
  ghost predicate WellPlaced(tags: seq<nat>)
    requires |tags| > 0
  {
    forall slot :: 0 <= slot < |tags| && tags[slot] != 0 ==> Placed(tags, slot)
  }

  ghost predicate Placed(tags: seq<nat>, slot: nat)
    requires slot < |tags|
  {
    exists k: nat :: k < |tags| && Probe(|tags|, tags[slot], k) == slot && PathTaken(tags, tags[slot], k)
  }

  ghost predicate CallOk(tags: seq<nat>, call: Call)
    requires |tags| > 0
  {
    && call.tag != 0
    && match call
       case Loading(tag, probes) => probes < |tags| && PathTaken(tags, tag, probes)
       case Claiming(tag, probes) => probes < |tags| && PathTaken(tags, tag, probes)
       case Found(tag, slot) => slot < |tags| && tags[slot] == tag
       case Exhausted(tag) => PathTaken(tags, tag, |tags|)
  }

  ghost predicate Inv(t: Table) {
    && |t.tags| > 0 && WellPlaced(t.tags)
    && forall c :: 0 <= c < |t.calls| ==> CallOk(t.tags, t.calls[c])
  }

  /** Free slots may be taken; a taken slot never changes hands. */
  ghost predicate Extends(tags: seq<nat>, tags': seq<nat>) {
    |tags| == |tags'| && forall k :: 0 <= k < |tags| && tags[k] != 0 ==> tags'[k] == tags[k]
  }

  /** Probing covers the whole table. */
  lemma ProbeCovers(size: nat, tag: nat, slot: nat) returns (k: nat)
    requires slot < size
    ensures k < size && Probe(size, tag, k) == slot
  {
    var home := tag % size;
    k := if slot >= home then slot - home else slot + size - home;
  }

  lemma PathTakenExtends(tags: seq<nat>, tags': seq<nat>, tag: nat, k: nat)
    requires Extends(tags, tags') && k <= |tags| && PathTaken(tags, tag, k)
    ensures PathTaken(tags', tag, k)
  {
  }

  lemma CallOkExtends(tags: seq<nat>, tags': seq<nat>, call: Call)
    requires |tags| > 0 && Extends(tags, tags') && CallOk(tags, call)
    ensures CallOk(tags', call)
  {
  }

  /** No tag is stored twice. */
  lemma TagsUnique(tags: seq<nat>, a: nat, b: nat)
    requires |tags| > 0 && WellPlaced(tags)
    requires a < |tags| && b < |tags| && tags[a] == tags[b] != 0
    ensures a == b
  {
    assert Placed(tags, a) && Placed(tags, b);
    var j: nat :| j < |tags| && Probe(|tags|, tags[a], j) == a && PathTaken(tags, tags[a], j);
    var k: nat :| k < |tags| && Probe(|tags|, tags[b], k) == b && PathTaken(tags, tags[b], k);
  }

  lemma MissOk(tags: seq<nat>, tag: nat, probes: nat)
    requires tag != 0 && probes < |tags| && PathTaken(tags, tag, probes)
    requires tags[Probe(|tags|, tag, probes)] != 0 && tags[Probe(|tags|, tag, probes)] != tag
    ensures CallOk(tags, Miss(|tags|, tag, probes))
  {
  }

  lemma ClaimKeepsPlaced(tags: seq<nat>, tag: nat, probes: nat)
    requires |tags| > 0 && WellPlaced(tags) && tag != 0
    requires probes < |tags| && PathTaken(tags, tag, probes)
    requires tags[Probe(|tags|, tag, probes)] == 0
    ensures var tags' := tags[Probe(|tags|, tag, probes) := tag];
            Extends(tags, tags') && WellPlaced(tags')
  {
    var slot := Probe(|tags|, tag, probes);
    var tags' := tags[slot := tag];
    forall s | 0 <= s < |tags| && tags'[s] != 0
      ensures Placed(tags', s)
    {
      if s == slot {
        forall j: nat | j < probes
          ensures tags'[Probe(|tags|, tag, j)] != 0 && tags'[Probe(|tags|, tag, j)] != tag
        {
        }
        assert PathTaken(tags', tag, probes);
      } else {
        assert Placed(tags, s);
        var k: nat :| k < |tags| && Probe(|tags|, tags[s], k) == s && PathTaken(tags, tags[s], k);
        PathTakenExtends(tags, tags', tags[s], k);
      }
    }
  }

  lemma InvInit(t: Table)
    requires Init(t)
    ensures Inv(t)
  {
  }

  lemma InvNext(t: Table, t': Table)
    requires Inv(t) && Next(t, t')
    ensures Inv(t') && Extends(t.tags, t'.tags)
  {
    if tag: nat :| Start(t, t', tag) {
      assert PathTaken(t.tags, tag, 0);
    } else if c: nat :| Load(t, t', c) {
      InvLoad(t, t', c);
    } else {
      var c: nat :| CompareExchange(t, t', c);
      InvCompareExchange(t, t', c);
    }
  }

  lemma InvLoad(t: Table, t': Table, c: nat)
    requires Inv(t) && Load(t, t', c)
    ensures Inv(t') && Extends(t.tags, t'.tags)
  {
    var call := t.calls[c];
    assert CallOk(t.tags, call);
    if t.tags[Probe(|t.tags|, call.tag, call.probes)] !in {0, call.tag} {
      MissOk(t.tags, call.tag, call.probes);
    }
  }

  lemma InvCompareExchange(t: Table, t': Table, c: nat)
    requires Inv(t) && CompareExchange(t, t', c)
    ensures Inv(t') && Extends(t.tags, t'.tags)
  {
    var call := t.calls[c];
    assert CallOk(t.tags, call);
    var existing := t.tags[Probe(|t.tags|, call.tag, call.probes)];
    if existing == 0 {
      ClaimKeepsPlaced(t.tags, call.tag, call.probes);
    } else if existing != call.tag {
      MissOk(t.tags, call.tag, call.probes);
    }
    forall d | 0 <= d < |t.calls| && d != c
      ensures CallOk(t'.tags, t'.calls[d])
    {
      CallOkExtends(t.tags, t'.tags, t.calls[d]);
    }
  }

  // ---- Whole runs -----------------------------------------------------------

  lemma {:induction false} RunInv(run: seq<Table>, i: nat)
    requires Run(run) && i < |run|
    ensures Inv(run[i])
  {
    if i == 0 {
      InvInit(run[0]);
    } else {
      RunInv(run, i - 1);
      assert Next(run[i - 1], run[i - 1 + 1]);
      InvNext(run[i - 1], run[i]);
    }
  }

  lemma RunSteps(run: seq<Table>, j: nat)
    requires Run(run) && 0 < j < |run|
    ensures Next(run[j - 1], run[j]) && Inv(run[j - 1]) && Extends(run[j - 1].tags, run[j].tags)
  {
    RunInv(run, j - 1);
    assert Next(run[j - 1], run[j - 1 + 1]);
    InvNext(run[j - 1], run[j]);
  }

  lemma ExtendsChains(a: seq<nat>, b: seq<nat>, c: seq<nat>)
    requires Extends(a, b) && Extends(b, c)
    ensures Extends(a, c)
  {
  }

  /** A claimed slot keeps its tag for the rest of the run. */
  lemma {:induction false} ClaimsArePermanent(run: seq<Table>, i: nat, j: nat)
    requires Run(run) && i <= j < |run|
    ensures Extends(run[i].tags, run[j].tags)
    decreases j
  {
    if i < j {
      ClaimsArePermanent(run, i, j - 1);
      RunSteps(run, j);
      ExtendsChains(run[i].tags, run[j - 1].tags, run[j].tags);
    }
  }

  lemma AnswerStays(t: Table, t': Table, c: nat)
    requires Next(t, t') && c < |t.calls|
    ensures c < |t'.calls| && t'.calls[c].tag == t.calls[c].tag
    ensures t.calls[c].Found? || t.calls[c].Exhausted? ==> t'.calls[c] == t.calls[c]
  {
  }

  /** A call, once finished, keeps its answer. */
  lemma {:induction false} AnswersArePermanent(run: seq<Table>, i: nat, j: nat, c: nat)
    requires Run(run) && i <= j < |run| && c < |run[i].calls|
    ensures c < |run[j].calls| && run[j].calls[c].tag == run[i].calls[c].tag
    ensures run[i].calls[c].Found? || run[i].calls[c].Exhausted? ==> run[j].calls[c] == run[i].calls[c]
    decreases j
  {
    if i < j {
      AnswersArePermanent(run, i, j - 1, c);
      assert run[j - 1 + 1] == run[j];
      AnswerStays(run[j - 1], run[j], c);
    }
  }

  /**
   The table's guarantee: in every state of every interleaving, all finished
   calls for one tag name the same slot and that slot holds the tag, no tag is
   in two slots, and no two calls for different tags name the same slot.
   */
  lemma OneSlotPerTag(run: seq<Table>, i: nat, j: nat, c: nat, d: nat)
    requires Run(run) && i <= j < |run|
    requires c < |run[i].calls| && run[i].calls[c].Found?
    requires d < |run[j].calls| && run[j].calls[d].Found?
    ensures run[i].calls[c].slot < |run[j].tags|
    ensures run[j].tags[run[i].calls[c].slot] == run[i].calls[c].tag
    ensures run[i].calls[c].tag == run[j].calls[d].tag <==> run[i].calls[c].slot == run[j].calls[d].slot
  {
    RunInv(run, i);
    RunInv(run, j);
    assert CallOk(run[i].tags, run[i].calls[c]) && CallOk(run[j].tags, run[j].calls[d]);
    ClaimsArePermanent(run, i, j);
    if run[i].calls[c].tag == run[j].calls[d].tag {
      TagsUnique(run[j].tags, run[i].calls[c].slot, run[j].calls[d].slot);
    }
  }

  /** The error is returned only when every slot holds some other tag, and then it stays true. */
  lemma ExhaustedOnlyWhenFull(run: seq<Table>, i: nat, j: nat, c: nat)
    requires Run(run) && i <= j < |run|
    requires c < |run[i].calls| && run[i].calls[c].Exhausted?
    ensures forall slot :: 0 <= slot < |run[j].tags| ==>
              run[j].tags[slot] != 0 && run[j].tags[slot] != run[i].calls[c].tag
  {
    RunInv(run, i);
    ClaimsArePermanent(run, i, j);
    var tag := run[i].calls[c].tag;
    assert CallOk(run[i].tags, run[i].calls[c]);
    forall slot | 0 <= slot < |run[j].tags|
      ensures run[j].tags[slot] != 0 && run[j].tags[slot] != tag
    {
      var k := ProbeCovers(|run[i].tags|, tag, slot);
    }
  }

  // ---- Against a sequential lookup ------------------------------------------

  datatype Lookup = At(slot: nat) | FreeAt(slot: nat) | Full

  /** One undisturbed probe loop from probe `k` on. */
  ghost function Search(tags: seq<nat>, tag: nat, k: nat): Lookup
    requires k <= |tags|
    decreases |tags| - k
  {
    if k == |tags| then Full
    else
      var slot := Probe(|tags|, tag, k);
      if tags[slot] == tag then At(slot)
      else if tags[slot] == 0 then FreeAt(slot)
      else Search(tags, tag, k + 1)
  }

  lemma {:induction false} SearchSkips(tags: seq<nat>, tag: nat, k: nat, m: nat)
    requires tag != 0 && k <= m <= |tags| && PathTaken(tags, tag, m)
    ensures Search(tags, tag, k) == Search(tags, tag, m)
    decreases m - k
  {
    if k < m {
      SearchSkips(tags, tag, k + 1, m);
    }
  }

  /**
   The answers linearise: at any later moment an undisturbed lookup of the tag
   finds exactly the slot the call returned, and an exhausted call's tag finds
   the table full.
   */
  lemma AnswersMatchSearch(run: seq<Table>, i: nat, j: nat, c: nat)
    requires Run(run) && i <= j < |run| && c < |run[i].calls|
    ensures run[i].calls[c].Found? ==>
              Search(run[j].tags, run[i].calls[c].tag, 0) == At(run[i].calls[c].slot)
    ensures run[i].calls[c].Exhausted? ==> Search(run[j].tags, run[i].calls[c].tag, 0) == Full
  {
    RunInv(run, i);
    RunInv(run, j);
    AnswersArePermanent(run, i, j, c);
    var tags, call := run[j].tags, run[j].calls[c];
    assert CallOk(run[j].tags, call);
    if run[i].calls[c].Found? {
      assert Placed(tags, call.slot);
      var k: nat :| k < |tags| && Probe(|tags|, tags[call.slot], k) == call.slot
                    && PathTaken(tags, tags[call.slot], k);
      SearchSkips(tags, call.tag, 0, k);
    } else if run[i].calls[c].Exhausted? {
      SearchSkips(tags, call.tag, 0, |tags|);
    }
  }

  // ---- Every call ends ------------------------------------------------------

  /** Steps a call still has to take at most. */
  function Budget(size: nat, call: Call): nat {
    match call
    case Loading(_, probes) => if probes < size then 2 * (size - probes) else 0
    case Claiming(_, probes) => if probes < size then 2 * (size - probes) - 1 else 0
    case Found(_, _) => 0
    case Exhausted(_) => 0
  }

  /**
   A step of one call uses up at least one unit of that call's budget and leaves
   every other call alone, so a call ends within `2 * size` steps of its own,
   whatever the others do.
   */
  lemma StepsAreBounded(t: Table, t': Table, c: nat)
    requires Inv(t) && (Load(t, t', c) || CompareExchange(t, t', c))
    ensures |t'.calls| == |t.calls|
    ensures Budget(|t'.tags|, t'.calls[c]) < Budget(|t.tags|, t.calls[c]) <= 2 * |t.tags|
    ensures forall d :: 0 <= d < |t.calls| && d != c ==> t'.calls[d] == t.calls[d]
  {
    assert CallOk(t.tags, t.calls[c]);
  }

  /** A call that has not finished can always take a step. */
  lemma NeverStuck(t: Table, c: nat)
    requires Inv(t) && c < |t.calls| && Budget(|t.tags|, t.calls[c]) > 0
    ensures exists t' :: Load(t, t', c) || CompareExchange(t, t', c)
  {
    var call := t.calls[c];
    assert CallOk(t.tags, call);
    var slot := Probe(|t.tags|, call.tag, call.probes);
    var current := t.tags[slot];
    if call.Loading? {
      var t' := t.(calls := t.calls[c :=
        if current == call.tag then Found(call.tag, slot)
        else if current == 0 then Claiming(call.tag, call.probes)
        else Miss(|t.tags|, call.tag, call.probes)]);
      assert Load(t, t', c);
    } else {
      var t' := Table(
        if current == 0 then t.tags[slot := call.tag] else t.tags,
        t.calls[c :=
          if current == 0 || current == call.tag then Found(call.tag, slot)
          else Miss(|t.tags|, call.tag, call.probes)]);
      assert CompareExchange(t, t', c);
    }
  }
}

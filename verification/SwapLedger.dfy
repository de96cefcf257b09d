/**
 The lock-free swap ledger of src/blockchain/ledger.rs and the write-ahead log
 that src/bin/hyperion_raw_ingress.rs keeps of it. Every load, every weak
 compare-exchange (which may fail for no reason), every send into the bounded
 channel and every receive by the logger is one step; steps interleave freely.
 */
module SwapLedger {
  import opened ByteCodec

  type Word = x: nat | x < U64
  const WAL_BATCH_SIZE: nat := 64
  const WAL_CHANNEL_BOUND: nat := 1024

  datatype SwapError = InvalidAccount | InsufficientBalance

  datatype Phase =
    | Debiting                // about to load the source balance
    | DebitCas(seen: int)     // loaded `seen`, about to compare-exchange
    | Crediting
    | CreditCas(read: Word)
    | Swapped                 // `execute_jit_dex_swap` has returned Ok
    | Logged                  // its record has been sent to the logger
    | Rejected(error: SwapError)

  /** `eurc` is fixed before either loop starts. */
  datatype Swap = Swap(src: nat, dst: nat, amount: nat, fxRate: nat, eurc: nat, phase: Phase)

  datatype Record = Record(src: nat, dst: nat, amount: nat, eurc: nat)

  /** Balances, every swap ever started, and the log on its way to the file. */
  datatype State = State(
    usdt: seq<int>, eurc: seq<Word>,
    swaps: seq<Swap>,
    queue: seq<Record>, batch: seq<Record>, wal: seq<Record>)

  /** `amount.saturating_mul(fx_rate) / 1_000_000` on 64-bit words. */
  function EurcAmount(amount: nat, fxRate: nat): nat {
    (if amount * fxRate < U64 then amount * fxRate else U64 - 1) / 1_000_000
  }

  /** What an unchecked 64-bit word holds after adding `y` to `x` in any number of additions. */
  function WrappingAdd(x: nat, y: nat): (r: nat)
    requires x < U64
    ensures r < U64
    ensures r == x + y <==> x + y < U64
    decreases y
  {
    if x + y < U64 then x + y
    else if y >= U64 then WrappingAdd(x, y - U64)
    else x + y - U64
  }

  function RecordOf(s: Swap): Record {
    Record(s.src, s.dst, s.amount, s.eurc)
  }

  // ---- Steps ----------------------------------------------------------------

  ghost predicate Init(s: State) {
    && |s.usdt| == |s.eurc|
    && (forall a :: 0 <= a < |s.usdt| ==> 0 <= s.usdt[a] < U64)
    && s.swaps == [] && s.queue == [] && s.batch == [] && s.wal == []
  }

  ghost predicate Begin(s: State, s': State, swap: Swap) {
    && swap.amount < U64 && swap.fxRate < U64 && swap.eurc == EurcAmount(swap.amount, swap.fxRate)
    && swap.phase == (if swap.src < |s.usdt| && swap.dst < |s.eurc| then Debiting else Rejected(InvalidAccount))
    && s' == s.(swaps := s.swaps + [swap])
  }

  ghost predicate At(s: State, c: nat) {
    && c < |s.swaps|
    && (!s.swaps[c].phase.Rejected? ==> s.swaps[c].src < |s.usdt| && s.swaps[c].dst < |s.eurc|)
  }

  function Moved(s: State, c: nat, phase: Phase): seq<Swap>
    requires c < |s.swaps|
  {
    s.swaps[c := s.swaps[c].(phase := phase)]
  }

  ghost predicate LoadUsdt(s: State, s': State, c: nat) {
    && At(s, c) && s.swaps[c].phase == Debiting
    && var current := s.usdt[s.swaps[c].src];
       s' == s.(swaps := Moved(s, c,
         if current < s.swaps[c].amount then Rejected(InsufficientBalance) else DebitCas(current)))
  }

  ghost predicate TryDebit(s: State, s': State, c: nat) {
    && At(s, c) && s.swaps[c].phase.DebitCas?
    && var swap := s.swaps[c];
       var seen := swap.phase.seen;
       || (s.usdt[swap.src] == seen
           && s' == s.(usdt := s.usdt[swap.src := seen - swap.amount], swaps := Moved(s, c, Crediting)))
       || s' == s.(swaps := Moved(s, c, Debiting))
  }

  ghost predicate LoadEurc(s: State, s': State, c: nat) {
    && At(s, c) && s.swaps[c].phase == Crediting
    && s' == s.(swaps := Moved(s, c, CreditCas(s.eurc[s.swaps[c].dst])))
  }

  ghost predicate TryCredit(s: State, s': State, c: nat) {
    && At(s, c) && s.swaps[c].phase.CreditCas?
    && var swap := s.swaps[c];
       var seen := swap.phase.read;
       || (s.eurc[swap.dst] == seen
           && s' == s.(eurc := s.eurc[swap.dst := WrappingAdd(seen, swap.eurc)],
                       swaps := Moved(s, c, Swapped)))
       || s' == s.(swaps := Moved(s, c, Crediting))
  }

  /** Sending blocks while the channel is full. */
  ghost predicate Send(s: State, s': State, c: nat) {
    && At(s, c) && s.swaps[c].phase == Swapped && |s.queue| < WAL_CHANNEL_BOUND
    && s' == s.(queue := s.queue + [RecordOf(s.swaps[c])], swaps := Moved(s, c, Logged))
  }

  ghost predicate Receive(s: State, s': State) {
    && s.queue != []
    && var batch := s.batch + [s.queue[0]];
       s' == s.(queue := s.queue[1..],
                batch := if |batch| >= WAL_BATCH_SIZE then [] else batch,
                wal := if |batch| >= WAL_BATCH_SIZE then s.wal + batch else s.wal)
  }

  /** The channel is closed and drained: the logger writes what it still holds. */
  ghost predicate Drain(s: State, s': State) {
    s.queue == [] && s' == s.(batch := [], wal := s.wal + s.batch)
  }

  ghost predicate SwapStep(s: State, s': State, c: nat) {
    LoadUsdt(s, s', c) || TryDebit(s, s', c) || LoadEurc(s, s', c) || TryCredit(s, s', c)
  }

  ghost predicate Next(s: State, s': State) {
    || (exists swap :: Begin(s, s', swap))
    || (exists c: nat :: SwapStep(s, s', c) || Send(s, s', c))
    || Receive(s, s')
    || Drain(s, s')
  }

  ghost predicate Run(run: seq<State>) {
    run != [] && Init(run[0]) && forall i :: 0 <= i < |run| - 1 ==> Next(run[i], run[i + 1])
  }

  // ---- What has been moved --------------------------------------------------

  predicate Debited(s: Swap) {
    s.phase.Crediting? || s.phase.CreditCas? || s.phase.Swapped? || s.phase.Logged?
  }

  predicate Credited(s: Swap) {
    s.phase.Swapped? || s.phase.Logged?
  }

  function DebitOf(s: Swap, a: nat): nat {
    if Debited(s) && s.src == a then s.amount else 0
  }

  function CreditOf(s: Swap, a: nat): nat {
    if Credited(s) && s.dst == a then s.eurc else 0
  }

  function DebitedFrom(swaps: seq<Swap>, a: nat): nat {
    if swaps == [] then 0 else DebitedFrom(swaps[..|swaps| - 1], a) + DebitOf(swaps[|swaps| - 1], a)
  }

  function CreditedTo(swaps: seq<Swap>, a: nat): nat {
    if swaps == [] then 0 else CreditedTo(swaps[..|swaps| - 1], a) + CreditOf(swaps[|swaps| - 1], a)
  }

  lemma {:induction false} SumsMove(swaps: seq<Swap>, c: nat, swap: Swap, a: nat)
    requires c < |swaps|
    ensures DebitedFrom(swaps[c := swap], a) == DebitedFrom(swaps, a) - DebitOf(swaps[c], a) + DebitOf(swap, a)
    ensures CreditedTo(swaps[c := swap], a) == CreditedTo(swaps, a) - CreditOf(swaps[c], a) + CreditOf(swap, a)
    decreases |swaps|
  {
    var n := |swaps| - 1;
    if c == n {
      assert swaps[c := swap][..n] == swaps[..n];
    } else {
      SumsMove(swaps[..n], c, swap, a);
      assert swaps[c := swap][..n] == swaps[..n][c := swap];
    }
  }

  // ---- Records --------------------------------------------------------------

  /** The records of the logged swaps. */
  function LoggedRecords(swaps: seq<Swap>): seq<Record> {
    if swaps == [] then []
    else
      var last := swaps[|swaps| - 1];
      LoggedRecords(swaps[..|swaps| - 1]) + (if last.phase.Logged? then [RecordOf(last)] else [])
  }

  /** The record a swap has in the log, if any. */
  function Logs(swap: Swap): multiset<Record> {
    if swap.phase.Logged? then multiset{RecordOf(swap)} else multiset{}
  }

  lemma RecordsLast(swaps: seq<Swap>)
    requires swaps != []
    ensures multiset(LoggedRecords(swaps)) == multiset(LoggedRecords(swaps[..|swaps| - 1])) + Logs(swaps[|swaps| - 1])
  {
  }

  /** How often a record is in the log of the logged swaps. */
  function TimesLogged(swaps: seq<Swap>, x: Record): nat {
    if swaps == [] then 0
    else TimesLogged(swaps[..|swaps| - 1], x) + Logs(swaps[|swaps| - 1])[x]
  }

  lemma {:induction false} TimesLoggedIs(swaps: seq<Swap>, x: Record)
    ensures multiset(LoggedRecords(swaps))[x] == TimesLogged(swaps, x)
  {
    if swaps != [] {
      TimesLoggedIs(swaps[..|swaps| - 1], x);
      RecordsLast(swaps);
    }
  }

  lemma {:induction false} TimesMove(swaps: seq<Swap>, c: nat, swap: Swap, x: Record)
    requires c < |swaps|
    ensures TimesLogged(swaps[c := swap], x) + Logs(swaps[c])[x] == TimesLogged(swaps, x) + Logs(swap)[x]
    decreases |swaps|
  {
    var n := |swaps| - 1;
    if c == n {
      assert swaps[c := swap][..n] == swaps[..n];
    } else {
      TimesMove(swaps[..n], c, swap, x);
      assert swaps[c := swap][..n] == swaps[..n][c := swap];
    }
  }

  lemma RecordsSet(swaps: seq<Swap>, c: nat, swap: Swap)
    requires c < |swaps|
    ensures multiset(LoggedRecords(swaps[c := swap])) + Logs(swaps[c]) == multiset(LoggedRecords(swaps)) + Logs(swap)
  {
    forall x: Record
      ensures (multiset(LoggedRecords(swaps[c := swap])) + Logs(swaps[c]))[x]
           == (multiset(LoggedRecords(swaps)) + Logs(swap))[x]
    {
      TimesLoggedIs(swaps[c := swap], x);
      TimesLoggedIs(swaps, x);
      TimesMove(swaps, c, swap, x);
    }
  }

  lemma RecordsMove(swaps: seq<Swap>, c: nat, phase: Phase)
    requires c < |swaps| && !swaps[c].phase.Logged?
    ensures multiset(LoggedRecords(swaps[c := swaps[c].(phase := phase)]))
         == multiset(LoggedRecords(swaps)) + (if phase.Logged? then multiset{RecordOf(swaps[c])} else multiset{})
  {
    RecordsSet(swaps, c, swaps[c].(phase := phase));
  }

  // ---- The invariant --------------------------------------------------------

  ghost predicate SwapOk(s: State, swap: Swap) {
    && (!swap.phase.Rejected? ==> swap.src < |s.usdt| && swap.dst < |s.eurc|)
    && (swap.phase.DebitCas? ==> swap.phase.seen >= swap.amount)
  }

  ghost predicate AccountOk(s0: State, s: State, a: nat)
    requires a < |s0.usdt| == |s.usdt| && a < |s0.eurc| == |s.eurc|
  {
    && 0 <= s.usdt[a]
    && s.usdt[a] + DebitedFrom(s.swaps, a) == s0.usdt[a]
    && s.eurc[a] == WrappingAdd(s0.eurc[a], CreditedTo(s.swaps, a))
  }

  ghost predicate Balanced(s0: State, s: State) {
    && |s0.usdt| == |s0.eurc| == |s.usdt| == |s.eurc|
    && forall a :: 0 <= a < |s.usdt| ==> AccountOk(s0, s, a)
  }

  ghost predicate LogOk(s: State) {
    && |s.batch| < WAL_BATCH_SIZE && |s.queue| <= WAL_CHANNEL_BOUND
    && multiset(s.wal + s.batch + s.queue) == multiset(LoggedRecords(s.swaps))
  }

  ghost predicate Inv(s0: State, s: State) {
    Balanced(s0, s) && LogOk(s) && forall c :: 0 <= c < |s.swaps| ==> SwapOk(s, s.swaps[c])
  }

  lemma {:induction false} AddTwice(x: nat, y: nat, z: nat)
    requires x < U64
    ensures WrappingAdd(WrappingAdd(x, y), z) == WrappingAdd(x, y + z)
    decreases y + z
  {
    if y >= U64 {
      AddTwice(x, y - U64, z);
    } else if z >= U64 {
      AddTwice(x, y, z - U64);
    }
  }

  lemma InvBegin(s0: State, s: State, s': State, swap: Swap)
    requires Inv(s0, s) && Begin(s, s', swap)
    ensures Inv(s0, s')
  {
    assert s'.swaps[..|s.swaps|] == s.swaps;
    forall a | 0 <= a < |s.usdt|
      ensures AccountOk(s0, s', a)
    {
      assert AccountOk(s0, s, a);
    }
  }

  lemma StepShape(s: State, s': State, c: nat)
    requires SwapStep(s, s', c)
    ensures c < |s.swaps| == |s'.swaps| && !s.swaps[c].phase.Logged? && !s'.swaps[c].phase.Logged?
    ensures s'.swaps == Moved(s, c, s'.swaps[c].phase)
    ensures s'.queue == s.queue && s'.batch == s.batch && s'.wal == s.wal
  {
  }

  /** What a step of swap `c` does to balances: nothing, its debit, or its credit. */
  lemma StepKinds(s: State, s': State, c: nat)
    requires SwapStep(s, s', c)
    ensures c < |s.swaps| && s.swaps[c].src < |s.usdt| && s.swaps[c].dst < |s.eurc|
    ensures var swap, after := s.swaps[c], s'.swaps[c];
      || (s'.usdt == s.usdt && s'.eurc == s.eurc
          && Debited(after) == Debited(swap) && Credited(after) == Credited(swap))
      || (s'.usdt == s.usdt[swap.src := s.usdt[swap.src] - swap.amount] && s'.eurc == s.eurc
          && !Debited(swap) && Debited(after) && Credited(after) == Credited(swap)
          && swap.phase.DebitCas? && swap.phase.seen == s.usdt[swap.src])
      || (s'.eurc == s.eurc[swap.dst := WrappingAdd(s.eurc[swap.dst], swap.eurc)] && s'.usdt == s.usdt
          && Debited(after) == Debited(swap) && !Credited(swap) && Credited(after))
  {
  }

  lemma DebitStep(s0: State, s: State, s': State, c: nat, a: nat)
    requires SwapStep(s, s', c) && SwapOk(s, s.swaps[c])
    requires |s0.usdt| == |s0.eurc| == |s.usdt| == |s.eurc| && a < |s.usdt| && AccountOk(s0, s, a)
    ensures |s.usdt| == |s'.usdt| && 0 <= s'.usdt[a]
    ensures s'.usdt[a] + DebitedFrom(s'.swaps, a) == s0.usdt[a]
  {
    StepShape(s, s', c);
    StepKinds(s, s', c);
    SumsMove(s.swaps, c, s'.swaps[c], a);
  }

  lemma CreditStep(s0: State, s: State, s': State, c: nat, a: nat)
    requires SwapStep(s, s', c)
    requires |s0.usdt| == |s0.eurc| == |s.usdt| == |s.eurc| && a < |s.usdt| && AccountOk(s0, s, a)
    ensures |s.eurc| == |s'.eurc| && s'.eurc[a] == WrappingAdd(s0.eurc[a], CreditedTo(s'.swaps, a))
  {
    StepShape(s, s', c);
    StepKinds(s, s', c);
    SumsMove(s.swaps, c, s'.swaps[c], a);
    AddTwice(s0.eurc[a], CreditedTo(s.swaps, a), s.swaps[c].eurc);
  }

  lemma AccountStep(s0: State, s: State, s': State, c: nat, a: nat)
    requires SwapStep(s, s', c) && SwapOk(s, s.swaps[c])
    requires |s0.usdt| == |s0.eurc| == |s.usdt| == |s.eurc| && a < |s.usdt| && AccountOk(s0, s, a)
    ensures |s.usdt| == |s'.usdt| == |s'.eurc| && AccountOk(s0, s', a)
  {
    DebitStep(s0, s, s', c, a);
    CreditStep(s0, s, s', c, a);
  }

  /** A swap's own step moves its account by exactly its amount, once. */
  lemma BalancedStep(s0: State, s: State, s': State, c: nat)
    requires Balanced(s0, s) && SwapStep(s, s', c) && SwapOk(s, s.swaps[c])
    ensures Balanced(s0, s')
  {
    forall a | 0 <= a < |s.usdt|
      ensures |s.usdt| == |s'.usdt| == |s'.eurc| && AccountOk(s0, s', a)
    {
      AccountStep(s0, s, s', c, a);
    }
  }

  lemma LogStep(s: State, s': State, c: nat)
    requires LogOk(s) && SwapStep(s, s', c)
    ensures LogOk(s')
  {
    StepShape(s, s', c);
    RecordsMove(s.swaps, c, s'.swaps[c].phase);
  }

  lemma SwapsStep(s0: State, s: State, s': State, c: nat)
    requires Inv(s0, s) && SwapStep(s, s', c)
    ensures forall d :: 0 <= d < |s'.swaps| ==> SwapOk(s', s'.swaps[d])
  {
    assert SwapOk(s, s.swaps[c]);
  }

  lemma InvSwapStep(s0: State, s: State, s': State, c: nat)
    requires Inv(s0, s) && SwapStep(s, s', c)
    ensures Inv(s0, s')
  {
    assert SwapOk(s, s.swaps[c]);
    BalancedStep(s0, s, s', c);
    LogStep(s, s', c);
    SwapsStep(s0, s, s', c);
  }

  lemma SendLogs(s: State, s': State, c: nat)
    requires LogOk(s) && Send(s, s', c)
    ensures LogOk(s')
  {
    RecordsMove(s.swaps, c, Logged);
    assert s'.wal + s'.batch + s'.queue == s.wal + s.batch + s.queue + [RecordOf(s.swaps[c])];
  }

  lemma SendAccount(s0: State, s: State, s': State, c: nat, a: nat)
    requires Send(s, s', c) && |s0.usdt| == |s0.eurc| == |s.usdt| == |s.eurc|
    requires a < |s.usdt| && AccountOk(s0, s, a)
    ensures |s.usdt| == |s'.usdt| == |s'.eurc| && AccountOk(s0, s', a)
  {
    SumsMove(s.swaps, c, s'.swaps[c], a);
  }

  lemma InvSend(s0: State, s: State, s': State, c: nat)
    requires Inv(s0, s) && Send(s, s', c)
    ensures Inv(s0, s')
  {
    SendLogs(s, s', c);
    forall a | 0 <= a < |s.usdt|
      ensures |s.usdt| == |s'.usdt| == |s'.eurc| && AccountOk(s0, s', a)
    {
      SendAccount(s0, s, s', c, a);
    }
  }

  lemma LoggerKeepsLog(s: State, s': State)
    requires LogOk(s) && (Receive(s, s') || Drain(s, s'))
    ensures LogOk(s')
  {
    if Receive(s, s') {
      assert s.queue == [s.queue[0]] + s.queue[1..];
    }
    assert s'.wal + s'.batch + s'.queue == s.wal + s.batch + s.queue;
  }

  lemma InvLogger(s0: State, s: State, s': State)
    requires Inv(s0, s) && (Receive(s, s') || Drain(s, s'))
    ensures Inv(s0, s')
  {
    LoggerKeepsLog(s, s');
    forall a | 0 <= a < |s.usdt|
      ensures AccountOk(s0, s', a)
    {
      assert AccountOk(s0, s, a);
    }
  }

  lemma InvNext(s0: State, s: State, s': State)
    requires Inv(s0, s) && Next(s, s')
    ensures Inv(s0, s')
  {
    if swap :| Begin(s, s', swap) {
      InvBegin(s0, s, s', swap);
    } else if c: nat :| SwapStep(s, s', c) {
      InvSwapStep(s0, s, s', c);
    } else if c: nat :| Send(s, s', c) {
      InvSend(s0, s, s', c);
    } else {
      InvLogger(s0, s, s');
    }
  }

  lemma {:induction false} RunInv(run: seq<State>, i: nat)
    requires Run(run) && i < |run|
    ensures Inv(run[0], run[i])
  {
    if i == 0 {
      var s := run[0];
      forall a | 0 <= a < |s.usdt|
        ensures AccountOk(s, s, a)
      {
      }
    } else {
      RunInv(run, i - 1);
      assert Next(run[i - 1], run[i - 1 + 1]);
      InvNext(run[0], run[i - 1], run[i]);
    }
  }

  // ---- Main results ---------------------------------------------------------

  /**
   In every state of every interleaving no balance is negative, each account's
   USDT plus what swaps have debited from it is what it started with, and its
   EURC is what it started with plus what swaps have credited, modulo 2^64.
   */
  lemma Conservation(run: seq<State>, i: nat, a: nat)
    requires Run(run) && i < |run| && a < |run[0].usdt|
    ensures |run[i].usdt| == |run[i].eurc| == |run[0].usdt| == |run[0].eurc|
    ensures 0 <= run[i].usdt[a] == run[0].usdt[a] - DebitedFrom(run[i].swaps, a)
    ensures run[i].eurc[a] == WrappingAdd(run[0].eurc[a], CreditedTo(run[i].swaps, a))
    ensures run[i].eurc[a] == run[0].eurc[a] + CreditedTo(run[i].swaps, a)
            <==> run[0].eurc[a] + CreditedTo(run[i].swaps, a) < U64
  {
    RunInv(run, i);
    assert AccountOk(run[0], run[i], a);
  }

  /** Every swap, and so every log record, is priced by the saturating 64-bit product. */
  lemma {:induction false} PricedBySaturation(run: seq<State>, i: nat, c: nat)
    requires Run(run) && i < |run| && c < |run[i].swaps|
    ensures run[i].swaps[c].eurc == EurcAmount(run[i].swaps[c].amount, run[i].swaps[c].fxRate)
  {
    if i > 0 {
      assert Next(run[i - 1], run[i - 1 + 1]);
      if c < |run[i - 1].swaps| {
        PricedBySaturation(run, i - 1, c);
      }
    }
  }

  /** How far a swap has got; it never moves back. */
  function Rank(p: Phase): nat {
    match p
    case Debiting => 0 case DebitCas(_) => 0
    case Crediting => 1 case CreditCas(_) => 1
    case Swapped => 2 case Logged => 3 case Rejected(_) => 4
  }

  /**
   Each swap debits once and credits once: a step touches no other swap, changes
   USDT exactly when this swap passes from rank 0 to 1, and EURC exactly when it
   passes from rank 1 to 2, by exactly its own amounts.
   */
  lemma OneEffectPerStep(s0: State, s: State, s': State, c: nat)
    requires Inv(s0, s) && SwapStep(s, s', c)
    ensures |s'.swaps| == |s.swaps| && forall d :: 0 <= d < |s.swaps| && d != c ==> s'.swaps[d] == s.swaps[d]
    ensures var swap, before, after := s.swaps[c], Rank(s.swaps[c].phase), Rank(s'.swaps[c].phase);
      && s'.swaps[c] == swap.(phase := s'.swaps[c].phase)
      && (after == before || after == before + 1 || (before == 0 && after == 4))
      && s'.usdt == (if before == 0 && after == 1
                     then s.usdt[swap.src := s.usdt[swap.src] - swap.amount] else s.usdt)
      && s'.eurc == (if before == 1 && after == 2
                     then s.eurc[swap.dst := WrappingAdd(s.eurc[swap.dst], swap.eurc)]
                     else s.eurc)
  {
    assert SwapOk(s, s.swaps[c]);
  }

  /** Until it is written out, at most 63 + 1024 logged swaps are missing from the file. */
  lemma WalLag(run: seq<State>, i: nat)
    requires Run(run) && i < |run|
    ensures |run[i].wal| <= |LoggedRecords(run[i].swaps)| <= |run[i].wal| + 63 + 1024
    ensures multiset(run[i].wal) <= multiset(LoggedRecords(run[i].swaps))
  {
    RunInv(run, i);
    var s := run[i];
    var all := s.wal + s.batch + s.queue;
    assert |multiset(all)| == |all| && |multiset(LoggedRecords(s.swaps))| == |LoggedRecords(s.swaps)|;
    assert multiset(all) == multiset(s.wal) + multiset(s.batch) + multiset(s.queue);
  }

  // ---- Replay ---------------------------------------------------------------

  datatype Balances = Balances(usdt: seq<int>, eurc: seq<Word>)

  /** Replaying one record onto balances. */
  function Apply(b: Balances, r: Record): Balances
    requires r.src < |b.usdt| && r.dst < |b.eurc|
  {
    Balances(b.usdt[r.src := b.usdt[r.src] - r.amount],
             b.eurc[r.dst := WrappingAdd(b.eurc[r.dst], r.eurc)])
  }

  function Replay(b: Balances, rs: seq<Record>): (r: Balances)
    requires forall k :: 0 <= k < |rs| ==> rs[k].src < |b.usdt| && rs[k].dst < |b.eurc|
    ensures |r.usdt| == |b.usdt| && |r.eurc| == |b.eurc|
    decreases |rs|
  {
    if rs == [] then b else Apply(Replay(b, rs[..|rs| - 1]), rs[|rs| - 1])
  }

  function DebitSum(rs: seq<Record>, a: nat): nat {
    if rs == [] then 0 else DebitSum(rs[..|rs| - 1], a) + (if rs[|rs| - 1].src == a then rs[|rs| - 1].amount else 0)
  }

  function CreditSum(rs: seq<Record>, a: nat): nat {
    if rs == [] then 0 else CreditSum(rs[..|rs| - 1], a) + (if rs[|rs| - 1].dst == a then rs[|rs| - 1].eurc else 0)
  }

  lemma {:induction false} ReplayIs(b: Balances, rs: seq<Record>, a: nat)
    requires forall k :: 0 <= k < |rs| ==> rs[k].src < |b.usdt| && rs[k].dst < |b.eurc|
    requires a < |b.usdt| == |b.eurc|
    ensures Replay(b, rs).usdt[a] == b.usdt[a] - DebitSum(rs, a)
    ensures Replay(b, rs).eurc[a] == WrappingAdd(b.eurc[a], CreditSum(rs, a))
    decreases |rs|
  {
    if rs != [] {
      var last := rs[|rs| - 1];
      ReplayIs(b, rs[..|rs| - 1], a);
      AddTwice(b.eurc[a], CreditSum(rs[..|rs| - 1], a), last.eurc);
    }
  }

  lemma {:induction false} SumsWithout(rs: seq<Record>, k: nat, a: nat)
    requires k < |rs|
    ensures DebitSum(rs, a) == DebitSum(rs[..k] + rs[k + 1..], a) + (if rs[k].src == a then rs[k].amount else 0)
    ensures CreditSum(rs, a) == CreditSum(rs[..k] + rs[k + 1..], a) + (if rs[k].dst == a then rs[k].eurc else 0)
    decreases |rs|
  {
    var n := |rs| - 1;
    var rest := rs[..k] + rs[k + 1..];
    if k == n {
      assert rest == rs[..n];
    } else {
      SumsWithout(rs[..n], k, a);
      assert rest[..n - 1] == rs[..n][..k] + rs[..n][k + 1..];
    }
  }

  lemma MultisetWithout(rs: seq<Record>, k: nat)
    requires k < |rs|
    ensures multiset(rs[..k] + rs[k + 1..]) == multiset(rs) - multiset{rs[k]}
  {
    assert rs == rs[..k] + [rs[k]] + rs[k + 1..];
  }

  /** Sums over a log do not depend on its order. */
  lemma {:induction false} SumsPermute(xs: seq<Record>, ys: seq<Record>, a: nat)
    requires multiset(xs) == multiset(ys)
    ensures DebitSum(xs, a) == DebitSum(ys, a) && CreditSum(xs, a) == CreditSum(ys, a)
    decreases |xs|
  {
    if xs == [] {
      assert |ys| == |multiset(ys)| == 0;
    } else {
      var n := |xs| - 1;
      assert xs[n] in multiset(ys);
      var k :| 0 <= k < |ys| && ys[k] == xs[n];
      MultisetWithout(ys, k);
      MultisetWithout(xs, n);
      assert xs[..n] + xs[n + 1..] == xs[..n];
      SumsPermute(xs[..n], ys[..k] + ys[k + 1..], a);
      SumsWithout(ys, k, a);
    }
  }

  lemma LoggedRecordsSplit(swaps: seq<Swap>)
    requires swaps != []
    ensures var rest, last := LoggedRecords(swaps[..|swaps| - 1]), swaps[|swaps| - 1];
            LoggedRecords(swaps) == if last.phase.Logged? then rest + [RecordOf(last)] else rest
  {
  }

  lemma SumAppend(rs: seq<Record>, r: Record, a: nat)
    ensures DebitSum(rs + [r], a) == DebitSum(rs, a) + (if r.src == a then r.amount else 0)
    ensures CreditSum(rs + [r], a) == CreditSum(rs, a) + (if r.dst == a then r.eurc else 0)
  {
    assert (rs + [r])[..|rs|] == rs;
  }

  ghost predicate AllDone(swaps: seq<Swap>) {
    forall c :: 0 <= c < |swaps| ==> swaps[c].phase.Logged? || swaps[c].phase.Rejected?
  }

  lemma {:induction false} LoggedSums(swaps: seq<Swap>, a: nat)
    requires AllDone(swaps)
    ensures DebitSum(LoggedRecords(swaps), a) == DebitedFrom(swaps, a)
    ensures CreditSum(LoggedRecords(swaps), a) == CreditedTo(swaps, a)
    decreases |swaps|
  {
    if swaps != [] {
      var rest, last := swaps[..|swaps| - 1], swaps[|swaps| - 1];
      LoggedSums(rest, a);
      LoggedRecordsSplit(swaps);
      if last.phase.Logged? {
        SumAppend(LoggedRecords(rest), RecordOf(last), a);
        assert DebitOf(last, a) == if last.src == a then last.amount else 0;
      } else {
        assert DebitOf(last, a) == 0;
      }
      assert DebitedFrom(swaps, a) == DebitedFrom(rest, a) + DebitOf(last, a);
    }
  }

  lemma {:induction false} LoggedInRange(s: State, swaps: seq<Swap>, r: Record)
    requires forall c :: 0 <= c < |swaps| ==> SwapOk(s, swaps[c])
    requires r in LoggedRecords(swaps)
    ensures r.src < |s.usdt| && r.dst < |s.eurc|
    decreases |swaps|
  {
    var rest, last := swaps[..|swaps| - 1], swaps[|swaps| - 1];
    LoggedRecordsSplit(swaps);
    assert SwapOk(s, last);
    if r in LoggedRecords(rest) {
      LoggedInRange(s, rest, r);
    }
  }

  lemma {:induction false} PrefixDebits(rs: seq<Record>, k: nat, a: nat)
    requires k <= |rs|
    ensures DebitSum(rs[..k], a) <= DebitSum(rs, a)
    decreases |rs|
  {
    if k == |rs| {
      assert rs[..k] == rs;
    } else {
      PrefixDebits(rs[..|rs| - 1], k, a);
      assert rs[..|rs| - 1][..k] == rs[..k];
    }
  }

  /** Every swap has finished and the logger holds nothing back. */
  ghost predicate Quiescent(s: State) {
    s.queue == [] && s.batch == [] && AllDone(s.swaps)
  }

  /** Replaying `rs` keeps account `a` out of the negative after every record. */
  ghost predicate NeverOverdrawn(b: Balances, rs: seq<Record>, a: nat)
    requires forall k :: 0 <= k < |rs| ==> rs[k].src < |b.usdt| && rs[k].dst < |b.eurc|
    requires a < |b.usdt|
  {
    forall k :: 0 <= k <= |rs| ==> Replay(b, rs[..k]).usdt[a] >= 0
  }

  /**
   Once everything is quiet, replaying the file onto the opening balances in any
   order whatever gives exactly the ledger, and no replayed balance is ever
   negative on the way.
   */
  lemma ReplayRebuildsLedger(run: seq<State>, i: nat, order: seq<Record>)
    requires Run(run) && i < |run| && Quiescent(run[i])
    requires multiset(order) == multiset(run[i].wal)
    ensures forall k :: 0 <= k < |order| ==> order[k].src < |run[0].usdt| && order[k].dst < |run[0].eurc|
    ensures Replay(Balances(run[0].usdt, run[0].eurc), order) == Balances(run[i].usdt, run[i].eurc)
    ensures forall a :: 0 <= a < |run[0].usdt| ==> NeverOverdrawn(Balances(run[0].usdt, run[0].eurc), order, a)
  {
    RunInv(run, i);
    var s, b := run[i], Balances(run[0].usdt, run[0].eurc);
    FileIsLog(s);
    forall k | 0 <= k < |order|
      ensures order[k].src < |b.usdt| && order[k].dst < |b.eurc|
    {
      assert order[k] in multiset(order);
      LoggedInRange(s, s.swaps, order[k]);
    }
    forall a | 0 <= a < |b.usdt|
      ensures Replay(b, order).usdt[a] == s.usdt[a] && Replay(b, order).eurc[a] == s.eurc[a]
      ensures NeverOverdrawn(b, order, a)
    {
      assert AccountOk(run[0], s, a);
      Settled(run[0], s, order, a);
      ReplayIs(b, order, a);
      ReplayedAccount(b, order, a);
    }
    var r := Replay(b, order);
    SameBalances(r, Balances(s.usdt, s.eurc));
  }

  lemma SameBalances(x: Balances, y: Balances)
    requires |x.usdt| == |x.eurc| == |y.usdt| == |y.eurc|
    requires forall a :: 0 <= a < |x.usdt| ==> x.usdt[a] == y.usdt[a] && x.eurc[a] == y.eurc[a]
    ensures x == y
  {
    assert x.usdt == y.usdt && x.eurc == y.eurc;
  }

  lemma FileIsLog(s: State)
    requires LogOk(s) && Quiescent(s)
    ensures multiset(s.wal) == multiset(LoggedRecords(s.swaps))
  {
    assert s.wal + s.batch + s.queue == s.wal;
  }

  /** What one account should hold according to a log in any order. */
  lemma Settled(s0: State, s: State, order: seq<Record>, a: nat)
    requires AllDone(s.swaps) && multiset(order) == multiset(LoggedRecords(s.swaps))
    requires a < |s0.usdt| == |s0.eurc| == |s.usdt| == |s.eurc| && AccountOk(s0, s, a)
    ensures 0 <= s.usdt[a] == s0.usdt[a] - DebitSum(order, a)
    ensures s.eurc[a] == WrappingAdd(s0.eurc[a], CreditSum(order, a))
  {
    LoggedSums(s.swaps, a);
    SumsPermute(order, LoggedRecords(s.swaps), a);
  }

  lemma ReplayedAccount(b: Balances, order: seq<Record>, a: nat)
    requires a < |b.usdt| == |b.eurc| && DebitSum(order, a) <= b.usdt[a]
    requires forall k :: 0 <= k < |order| ==> order[k].src < |b.usdt| && order[k].dst < |b.eurc|
    ensures NeverOverdrawn(b, order, a)
  {
    forall k | 0 <= k <= |order|
      ensures Replay(b, order[..k]).usdt[a] >= 0
    {
      ReplayIs(b, order[..k], a);
      PrefixDebits(order, k, a);
    }
  }
}

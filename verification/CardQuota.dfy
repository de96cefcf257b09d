/**
 The KYC limit of the card authorisation, without a database: how many requests
 are ever approved while the account's level stays basic.
 */
module CardQuota {
  import opened ByteCodec
  import opened CardSaga

  /** Past the limit check, or sure to pass it while the level stays basic, but not yet counted. */
  function Admitted(r: Request): nat {
    match r.phase
    case LoadingLevel(count) => if count < LIMIT_TX_COUNT then 1 else 0
    case LoadingBalance => 1
    case Debiting(_) => 1
    case Counting => 1
    case _ => 0
  }

  function Counted(r: Request): nat {
    if r.phase == Recording || r.phase == Replied(Approved) then 1 else 0
  }

  /** Without a database no request is ever in a database phase. */
  ghost predicate Local(r: Request) {
    !(r.phase.StoringCount? || r.phase.StoringLevel? || r.phase.CountingInDb? || r.phase.StoringDbCount?
      || r.phase.UndoingCount? || r.phase.Refunding? || r.phase.RefundingUnrecorded? || r.phase.UndoingUnrecorded?)
  }

  ghost predicate AtMostInFlight(s: Account, k: nat) {
    Total(s.requests, InFlight) <= k
  }

  ghost predicate AllLocal(s: Account) {
    !s.db && forall c :: 0 <= c < |s.requests| ==> Local(s.requests[c]) && RequestOk(s.requests[c])
  }

  lemma AdvanceLocal(cell: Cell, r: Request, luck: Luck)
    requires Local(r) && RequestOk(r)
    ensures var r' := r.(phase := Advance(false, cell, r, luck).1);
            Local(r') && RequestOk(r')
    ensures Advance(false, cell, r, luck).0.basic == cell.basic
  {
  }

  lemma {:induction false} RunLocal(run: seq<Account>, i: nat)
    requires Run(run) && i < |run| && !run[0].db
    ensures AllLocal(run[i])
  {
    if i > 0 {
      RunLocal(run, i - 1);
      var s, s' := run[i - 1], run[i];
      assert Next(run[i - 1], run[i - 1 + 1]);
      if c: nat, luck :| Act(s, s', c, luck) {
        assert Local(s.requests[c]) && RequestOk(s.requests[c]);
        AdvanceLocal(s.cell, s.requests[c], luck);
      }
    }
  }

  ghost predicate QuotaInv(s: Account, k: nat) {
    && (s.verified || s.cell.basic)
    && (!s.verified ==>
          && s.cell.txCount + Total(s.requests, Admitted) <= LIMIT_TX_COUNT - 1 + k
          && s.cell.txCount + s.forgotten == Total(s.requests, Counted))
  }

  lemma AdvanceCounts(cell: Cell, r: Request, luck: Luck)
    requires Local(r) && RequestOk(r) && cell.basic && cell.txCount + Admitted(r) < U64
    ensures var (cell', phase) := Advance(false, cell, r, luck);
            var r' := r.(phase := phase);
            && cell'.basic
            && cell'.txCount + Counted(r) == cell.txCount + Counted(r')
            && (cell'.txCount + Admitted(r') <= cell.txCount + Admitted(r)
                || (r.phase == LoadingCount && cell'.txCount == cell.txCount < LIMIT_TX_COUNT))
  {
  }

  lemma ActQuota(s: Account, s': Account, c: nat, luck: Luck, k: nat)
    requires AllLocal(s) && QuotaInv(s, k) && Act(s, s', c, luck)
    requires AtMostInFlight(s', k) && k + LIMIT_TX_COUNT < U64
    ensures QuotaInv(s', k)
  {
    var r := s.requests[c];
    assert Local(r) && RequestOk(r);
    AdvanceLocal(s.cell, r, luck);
    if !s'.verified {
      TotalMoves(s.requests, c, s'.requests[c], Admitted);
      TotalMoves(s.requests, c, s'.requests[c], Counted);
      AdvanceCounts(s.cell, r, luck);
      TotalBelow(s'.requests, Admitted, InFlight);
    }
  }

  lemma OtherQuota(s: Account, s': Account, k: nat)
    requires QuotaInv(s, k) && Other(s, s')
    ensures QuotaInv(s', k)
  {
  }

  lemma BeginQuota(s: Account, s': Account, amount: nat, currencyOk: bool, k: nat)
    requires QuotaInv(s, k) && Begin(s, s', amount, currencyOk)
    ensures QuotaInv(s', k)
  {
    TotalAppend(s.requests, Request(amount, currencyOk, EnsuringUser), Admitted);
    TotalAppend(s.requests, Request(amount, currencyOk, EnsuringUser), Counted);
  }

  lemma NextQuota(s: Account, s': Account, k: nat)
    requires AllLocal(s) && QuotaInv(s, k) && Next(s, s')
    requires AtMostInFlight(s', k) && k + LIMIT_TX_COUNT < U64
    ensures QuotaInv(s', k)
  {
    if Other(s, s') {
      OtherQuota(s, s', k);
    } else if c: nat, luck :| Act(s, s', c, luck) {
      ActQuota(s, s', c, luck, k);
    } else {
      var amount: nat, currencyOk :| Begin(s, s', amount, currencyOk);
      BeginQuota(s, s', amount, currencyOk, k);
    }
  }

  lemma {:induction false} RunQuota(run: seq<Account>, i: nat, k: nat)
    requires Run(run) && i < |run| && !run[0].db && k + LIMIT_TX_COUNT < U64
    requires forall j :: 0 <= j <= i ==> AtMostInFlight(run[j], k)
    ensures QuotaInv(run[i], k)
  {
    if i > 0 {
      RunQuota(run, i - 1, k);
      RunLocal(run, i - 1);
      assert Next(run[i - 1], run[i - 1 + 1]);
      NextQuota(run[i - 1], run[i], k);
    }
  }

  /** The winner's count store, made over a count that is not zero. */
  ghost predicate Forgets(s: Account, s': Account) {
    s.setup == SettingCount && s'.setup == SettingBalance && s.cell.txCount != 0
  }

  lemma ForgottenOnlyInSetUp(s: Account, s': Account)
    requires Next(s, s')
    ensures s'.forgotten
         == s.forgotten + (if s.setup == SettingCount && s'.setup == SettingBalance then s.cell.txCount else 0)
  {
  }

  /** No count is forgotten exactly as long as the winner's count store has found a zero count. */
  lemma {:induction false} NothingForgottenIff(run: seq<Account>, i: nat)
    requires Run(run) && i < |run|
    ensures run[i].forgotten == 0 <==> forall j :: 0 <= j < i ==> !Forgets(run[j], run[j + 1])
  {
    if i > 0 {
      NothingForgottenIff(run, i - 1);
      assert Next(run[i - 1], run[i - 1 + 1]);
      ForgottenOnlyInSetUp(run[i - 1], run[i]);
      assert run[i].forgotten == 0 <==> run[i - 1].forgotten == 0 && !Forgets(run[i - 1], run[i - 1 + 1]);
    }
  }

  ghost predicate StaysBasic(run: seq<Account>, i: nat)
    requires i < |run|
  {
    forall j :: 0 <= j <= i ==> run[j].cell.basic
  }

  lemma {:induction false} NeverVerified(run: seq<Account>, i: nat)
    requires Run(run) && i < |run| && StaysBasic(run, i)
    ensures !run[i].verified
  {
    if i > 0 {
      NeverVerified(run, i - 1);
      assert Next(run[i - 1], run[i - 1 + 1]) && run[i].cell.basic;
    }
  }

  /**
   Without a database, with at most `k` requests in flight at a time and the
   level never above basic, at most 99 + `k` requests are ever approved as long
   as the winner's count store found a zero count; otherwise what it found comes
   on top.
   */
  lemma ApprovalsBounded(run: seq<Account>, i: nat, k: nat)
    requires Run(run) && i < |run| && !run[0].db && k + LIMIT_TX_COUNT < U64
    requires forall j :: 0 <= j <= i ==> AtMostInFlight(run[j], k)
    requires StaysBasic(run, i)
    ensures Total(run[i].requests, IsApproved) <= 99 + k + run[i].forgotten
    ensures (forall j :: 0 <= j < i ==> !Forgets(run[j], run[j + 1])) ==>
              Total(run[i].requests, IsApproved) <= 99 + k
  {
    RunQuota(run, i, k);
    NeverVerified(run, i);
    TotalBelow(run[i].requests, IsApproved, Counted);
    NothingForgottenIff(run, i);
  }

  /** The step adds a request before the winner has made its last store. */
  ghost predicate EarlyRequest(s: Account, s': Account) {
    s.setup != Ready && |s'.requests| != |s.requests|
  }

  lemma {:induction false} NothingCountedYet(run: seq<Account>, i: nat)
    requires Run(run) && i < |run| && run[i].setup != Ready
    requires forall j :: 0 <= j < i ==> !EarlyRequest(run[j], run[j + 1])
    ensures run[i].requests == [] && run[i].cell.txCount == 0
  {
    if i > 0 {
      assert Next(run[i - 1], run[i - 1 + 1]) && !EarlyRequest(run[i - 1], run[i - 1 + 1]);
      NothingCountedYet(run, i - 1);
    }
  }

  /** If no request begins before the winner's last store, at most 99 + `k` are ever approved. */
  lemma LateRequestsBounded(run: seq<Account>, i: nat, k: nat)
    requires Run(run) && i < |run| && !run[0].db && k + LIMIT_TX_COUNT < U64
    requires forall j :: 0 <= j <= i ==> AtMostInFlight(run[j], k)
    requires forall j :: 0 <= j < i ==> !EarlyRequest(run[j], run[j + 1])
    requires StaysBasic(run, i)
    ensures Total(run[i].requests, IsApproved) <= 99 + k
  {
    forall j | 0 <= j < i
      ensures !Forgets(run[j], run[j + 1])
    {
      if run[j].setup == SettingCount {
        NothingCountedYet(run, j);
      }
    }
    ApprovalsBounded(run, i, k);
  }

  // ---- The bound is met -----------------------------------------------------

  const APPROVED: Request := Request(0, true, Replied(Approved))

  function Crowd(n: nat): (rs: seq<Request>)
    ensures |rs| == n
  {
    seq(n, _ => APPROVED)
  }

  lemma {:induction false} CrowdTotals(n: nat)
    ensures Total(Crowd(n), InFlight) == 0 && Total(Crowd(n), IsApproved) == n
  {
    if n > 0 {
      CrowdTotals(n - 1);
      assert Crowd(n)[..n - 1] == Crowd(n - 1);
    }
  }

  /** `n` requests have been approved and none is under way. */
  function Quiet(setup: Setup, forgotten: nat, count: nat, n: nat): Account {
    Account(false, setup, Cell(0, count, true), Crowd(n), 0, 0, forgotten, false)
  }

  /** One more is under way. */
  function Busy(s: Account, count: nat, phase: Phase): Account {
    s.(cell := Cell(0, count, true), requests := s.requests + [Request(0, true, phase)])
  }

  /** A run with at most one request in flight at a time. */
  ghost predicate Serial(run: seq<Account>) {
    Run(run) && !run[0].db && forall j :: 0 <= j < |run| ==> AtMostInFlight(run[j], 1) && run[j].cell.basic
  }

  lemma SerialExtends(run: seq<Account>, s: Account)
    requires Serial(run) && Next(run[|run| - 1], s) && AtMostInFlight(s, 1) && s.cell.basic
    ensures Serial(run + [s])
  {
    RunExtends(run, s);
  }

  lemma BusyIsSerial(s: Account, n: nat, count: nat, phase: Phase)
    requires s.requests == Crowd(n)
    ensures AtMostInFlight(Busy(s, count, phase), 1)
  {
    CrowdTotals(n);
    TotalAppend(Crowd(n), Request(0, true, phase), InFlight);
  }

  lemma Onward(run: seq<Account>, s: Account, n: nat, count: nat, phase: Phase, count': nat, phase': Phase)
    returns (longer: seq<Account>)
    requires Serial(run) && s.requests == Crowd(n) && !s.db && !s.verified
    requires run[|run| - 1] == Busy(s, count, phase)
    requires Advance(false, Cell(0, count, true), Request(0, true, phase), YES) == (Cell(0, count', true), phase')
    ensures Serial(longer) && longer[|longer| - 1] == Busy(s, count', phase')
  {
    var now, next := Busy(s, count, phase), Busy(s, count', phase');
    AfterIsNext(now, n, YES);
    assert now.requests[n := Request(0, true, phase')] == next.requests;
    BusyIsSerial(s, n, count', phase');
    SerialExtends(run, next);
    longer := run + [next];
  }

  const YES: Luck := Luck(true, false, 0, true)

  /** A request begins and reads the count and the level. */
  lemma BeginOne(run: seq<Account>, s: Account, n: nat, count: nat) returns (longer: seq<Account>)
    requires Serial(run) && run[|run| - 1] == s && s.requests == Crowd(n) && !s.db && !s.verified
    requires s.setup != Free && s.cell == Cell(0, count, true) && count < LIMIT_TX_COUNT
    ensures Serial(longer) && longer[|longer| - 1] == Busy(s, count, LoadingBalance)
  {
    assert Begin(s, Busy(s, count, EnsuringUser), 0, true);
    BusyIsSerial(s, n, count, EnsuringUser);
    SerialExtends(run, Busy(s, count, EnsuringUser));
    longer := run + [Busy(s, count, EnsuringUser)];
    longer := Onward(longer, s, n, count, EnsuringUser, count, LoadingCount);
    longer := Onward(longer, s, n, count, LoadingCount, count, LoadingLevel(count));
    longer := Onward(longer, s, n, count, LoadingLevel(count), count, LoadingBalance);
  }

  lemma ApproveOne(run: seq<Account>, setup: Setup, forgotten: nat, count: nat, n: nat)
    returns (longer: seq<Account>)
    requires Serial(run) && run[|run| - 1] == Quiet(setup, forgotten, count, n)
    requires setup != Free && count < LIMIT_TX_COUNT
    ensures Serial(longer) && longer[|longer| - 1] == Quiet(setup, forgotten, count + 1, n + 1)
  {
    var s := Quiet(setup, forgotten, count, n);
    longer := BeginOne(run, s, n, count);
    longer := Onward(longer, s, n, count, LoadingBalance, count, Debiting(0));
    longer := Onward(longer, s, n, count, Debiting(0), count, Counting);
    longer := Onward(longer, s, n, count, Counting, count + 1, Recording);
    longer := Onward(longer, s, n, count + 1, Recording, count + 1, Replied(Approved));
    assert Crowd(n) + [APPROVED] == Crowd(n + 1);
  }

  lemma {:induction false} ApproveMany(run: seq<Account>, setup: Setup, forgotten: nat, n: nat, more: nat)
    returns (longer: seq<Account>)
    requires Serial(run) && run[|run| - 1] == Quiet(setup, forgotten, 0, n)
    requires setup != Free && more <= LIMIT_TX_COUNT
    ensures Serial(longer) && longer[|longer| - 1] == Quiet(setup, forgotten, more, n + more)
  {
    longer := run;
    if more > 0 {
      longer := ApproveMany(run, setup, forgotten, n, more - 1);
      longer := ApproveOne(longer, setup, forgotten, more - 1, n + more - 1);
    }
  }

  /**
   The bound is met, and what the winner's count store found really comes on
   top: with one request in flight at a time, `early` approvals before that
   store and one hundred after it.
   */
  lemma BoundMet(early: nat) returns (run: seq<Account>)
    requires early <= LIMIT_TX_COUNT
    ensures Run(run) && !run[0].db && forall j :: 0 <= j < |run| ==> AtMostInFlight(run[j], 1)
    ensures StaysBasic(run, |run| - 1) && run[|run| - 1].forgotten == early
    ensures Total(run[|run| - 1].requests, IsApproved) == 99 + 1 + early
  {
    run := Claimed(false);
    assert Crowd(0) == [];
    CrowdTotals(early);
    run := ApproveMany(run, SettingLevel, 0, 0, early);
    var before := run;
    run := FinishSetUp(run);
    forall j | 0 <= j < |run|
      ensures AtMostInFlight(run[j], 1) && run[j].cell.basic
    {
      if j < |before| {
        assert run[j] == before[j];
      }
    }
    run := ApproveMany(run, Ready, early, early, LIMIT_TX_COUNT);
    CrowdTotals(early + LIMIT_TX_COUNT);
  }
}

/**
 One account of the gRPC engine in src/bin/hyperion_grpc_server.rs under any
 number of concurrent card authorisations, deposits and KYC decisions. Every
 atomic access and every database answer is one step, and steps of different
 requests interleave freely; the answers themselves are arbitrary.
 */
module CardSaga {
  import opened ByteCodec

  const I64_MAX: nat := 0x7FFF_FFFF_FFFF_FFFF
  const LIMIT_TX_COUNT: nat := 100

  datatype Verdict = Approved | Declined | RequiresKycUpgrade | Failed

  /** Where a request has got to; each phase names the step it is about to take. */
  datatype Phase =
    | EnsuringUser
    | LoadingCount
    | LoadingLevel(count: nat)                // the local count is loaded, the level is next
    | StoringCount(count: nat, level: bool)   // the database answered; its state is being copied
    | StoringLevel(count: nat, level: bool)
    | LoadingBalance
    | Debiting(seen: int)                     // about to compare-exchange the balance
    | Counting
    | CountingInDb
    | StoringDbCount(count: nat)
    | UndoingCount                            // the database failed: count back, then refund
    | Refunding
    | Recording
    | RefundingUnrecorded                     // the audit record failed: refund, then count back
    | UndoingUnrecorded
    | RecordingDecline(verdict: Verdict)
    | Replied(verdict: Verdict)

  /** `amount` is the total to debit, fee included. */
  datatype Request = Request(amount: nat, currencyOk: bool, phase: Phase)

  /** The account's atomics; `basic` is its KYC level. */
  datatype Cell = Cell(balance: int, txCount: nat, basic: bool)

  /** What the outside world answers to a step: success or not, and the database's state if it has one. */
  datatype Luck = Luck(ok: bool, found: bool, count: nat, basic: bool)

  /** The stores the winner of the slot still has to make. */
  datatype Setup = Free | SettingLevel | SettingCount | SettingBalance | Ready

  /**
   `deposited`, `lost`, `forgotten` and `verified` are bookkeeping of the model:
   all deposits, what the winner's stores overwrote, and whether the level was
   ever above basic.
   */
  datatype Account = Account(
    db: bool, setup: Setup, cell: Cell, requests: seq<Request>,
    deposited: nat, lost: int, forgotten: nat, verified: bool)

  // ---- Steps of one request -------------------------------------------------

  function Increment(x: nat): nat {
    if x + 1 == U64 then 0 else x + 1
  }

  function Decrement(x: nat): nat {
    if x == 0 then U64 - 1 else x - 1
  }

  /** The decision on a loaded count and level. */
  function Gate(r: Request, count: nat, basic: bool): Phase {
    if count >= LIMIT_TX_COUNT && basic then RecordingDecline(RequiresKycUpgrade)
    else if !r.currencyOk then Replied(Failed)
    else LoadingBalance
  }

  function Against(r: Request, current: int): Phase {
    if current < r.amount then RecordingDecline(Declined) else Debiting(current)
  }

  /** One step of `process_card_authorization`. */
  function Advance(db: bool, cell: Cell, r: Request, luck: Luck): (Cell, Phase) {
    match r.phase
    case EnsuringUser => (cell, if db && !luck.ok then Replied(Failed) else LoadingCount)
    case LoadingCount =>
      (cell, if db && !luck.ok then Replied(Failed)
             else if db && luck.found then StoringCount(luck.count, luck.basic)
             else LoadingLevel(cell.txCount))
    case LoadingLevel(count) => (cell, Gate(r, count, cell.basic))
    case StoringCount(count, level) => (cell.(txCount := count), StoringLevel(count, level))
    case StoringLevel(count, level) => (cell.(basic := level), Gate(r, count, level))
    case LoadingBalance => (cell, Against(r, cell.balance))
    case Debiting(seen) =>
      if luck.ok && cell.balance == seen then (cell.(balance := seen - r.amount), Counting)
      else (cell, Against(r, cell.balance))
    case Counting => (cell.(txCount := Increment(cell.txCount)), if db then CountingInDb else Recording)
    case CountingInDb => (cell, if luck.ok then StoringDbCount(luck.count) else UndoingCount)
    case StoringDbCount(count) => (cell.(txCount := count), Recording)
    case UndoingCount => (cell.(txCount := Decrement(cell.txCount)), Refunding)
    case Refunding => (cell.(balance := cell.balance + r.amount), Replied(Failed))
    case Recording => (cell, if db && !luck.ok then RefundingUnrecorded else Replied(Approved))
    case RefundingUnrecorded => (cell.(balance := cell.balance + r.amount), UndoingUnrecorded)
    case UndoingUnrecorded => (cell.(txCount := Decrement(cell.txCount)), Replied(Failed))
    case RecordingDecline(verdict) => (cell, Replied(if db && !luck.ok then Failed else verdict))
    case Replied(_) => (cell, r.phase)
  }

  // ---- Steps of the account -------------------------------------------------

  ghost predicate Init(s: Account) {
    s == Account(s.db, Free, Cell(0, 0, true), [], 0, 0, 0, false)
  }

  function Watched(s: Account): Account {
    s.(verified := s.verified || !s.cell.basic)
  }

  /** Somebody wins the slot: from here on every request for the account may use it. */
  ghost predicate Claim(s: Account, s': Account) {
    s.setup == Free && s' == s.(setup := SettingLevel)
  }

  /** The next of the winner's stores, made while others may already be at work. */
  ghost predicate SetUp(s: Account, s': Account) {
    || (s.setup == SettingLevel && s' == s.(setup := SettingCount, cell := s.cell.(basic := true)))
    || (s.setup == SettingCount
        && s' == s.(setup := SettingBalance, cell := s.cell.(txCount := 0), forgotten := s.forgotten + s.cell.txCount))
    || (s.setup == SettingBalance
        && s' == s.(setup := Ready, cell := s.cell.(balance := 0), lost := s.lost + s.cell.balance))
  }

  ghost predicate Begin(s: Account, s': Account, amount: nat, currencyOk: bool) {
    s.setup != Free && s' == s.(requests := s.requests + [Request(amount, currencyOk, EnsuringUser)])
  }

  /** `process_blockchain_deposit`, as long as the credits fit 64 signed bits. */
  ghost predicate Deposit(s: Account, s': Account, amount: nat) {
    && s.setup != Free && s.deposited + amount <= I64_MAX
    && s' == s.(cell := s.cell.(balance := s.cell.balance + amount), deposited := s.deposited + amount)
  }

  /** The level store of `process_kyc_approval`. */
  ghost predicate SetLevel(s: Account, s': Account, approved: bool) {
    s.setup != Free && s' == Watched(s.(cell := s.cell.(basic := !approved)))
  }

  ghost predicate Act(s: Account, s': Account, c: nat, luck: Luck) {
    && c < |s.requests| && luck.count < U64
    && var (cell, phase) := Advance(s.db, s.cell, s.requests[c], luck);
       s' == Watched(s.(cell := cell, requests := s.requests[c := s.requests[c].(phase := phase)]))
  }

  /** A step that is no card request's. */
  ghost predicate Other(s: Account, s': Account) {
    || Claim(s, s')
    || SetUp(s, s')
    || (exists amount: nat :: Deposit(s, s', amount))
    || (exists approved :: SetLevel(s, s', approved))
  }

  ghost predicate Next(s: Account, s': Account) {
    || Other(s, s')
    || (exists amount: nat, currencyOk :: Begin(s, s', amount, currencyOk))
    || (exists c: nat, luck :: Act(s, s', c, luck))
  }

  ghost predicate Run(run: seq<Account>) {
    run != [] && Init(run[0]) && forall i :: 0 <= i < |run| - 1 ==> Next(run[i], run[i + 1])
  }

  // ---- Totals over requests -------------------------------------------------

  function Total(rs: seq<Request>, f: Request -> nat): nat {
    if rs == [] then 0 else Total(rs[..|rs| - 1], f) + f(rs[|rs| - 1])
  }

  lemma TotalAppend(rs: seq<Request>, r: Request, f: Request -> nat)
    ensures Total(rs + [r], f) == Total(rs, f) + f(r)
  {
    assert (rs + [r])[..|rs|] == rs;
  }

  lemma {:induction false} TotalMoves(rs: seq<Request>, c: nat, r: Request, f: Request -> nat)
    requires c < |rs|
    ensures Total(rs[c := r], f) == Total(rs, f) - f(rs[c]) + f(r)
    decreases |rs|
  {
    var n := |rs| - 1;
    if c == n {
      assert rs[c := r][..n] == rs[..n];
    } else {
      TotalMoves(rs[..n], c, r, f);
      assert rs[c := r][..n] == rs[..n][c := r];
    }
  }

  lemma {:induction false} TotalBelow(rs: seq<Request>, f: Request -> nat, g: Request -> nat)
    requires forall r: Request :: f(r) <= g(r)
    ensures Total(rs, f) <= Total(rs, g)
    decreases |rs|
  {
    if rs != [] {
      TotalBelow(rs[..|rs| - 1], f, g);
    }
  }

  /** What a request currently holds of the account's money. */
  function Held(r: Request): nat {
    match r.phase
    case Counting => r.amount
    case CountingInDb => r.amount
    case StoringDbCount(_) => r.amount
    case UndoingCount => r.amount
    case Refunding => r.amount
    case Recording => r.amount
    case RefundingUnrecorded => r.amount
    case Replied(verdict) => if verdict == Approved then r.amount else 0
    case _ => 0
  }

  /** What an approved reply has reported as debited. */
  function Paid(r: Request): nat {
    if r.phase == Replied(Approved) then r.amount else 0
  }

  function InFlight(r: Request): nat {
    if r.phase.Replied? then 0 else 1
  }

  function IsApproved(r: Request): nat {
    if r.phase == Replied(Approved) then 1 else 0
  }

  // ---- Money ----------------------------------------------------------------

  ghost predicate RequestOk(r: Request) {
    && (r.phase.Debiting? ==> r.phase.seen >= r.amount)
    && (r.phase.RecordingDecline? ==> r.phase.verdict != Approved)
  }

  ghost predicate MoneyInv(s: Account) {
    && s.cell.balance >= 0 && s.lost >= 0
    && s.cell.balance + s.lost + Total(s.requests, Held) == s.deposited
    && forall c :: 0 <= c < |s.requests| ==> RequestOk(s.requests[c])
  }

  /** No step of a request creates or destroys money. */
  lemma AdvanceConserves(db: bool, cell: Cell, r: Request, luck: Luck)
    requires RequestOk(r) && cell.balance >= 0
    ensures var (cell', phase) := Advance(db, cell, r, luck);
            && cell'.balance >= 0 && RequestOk(r.(phase := phase))
            && cell'.balance + Held(r.(phase := phase)) == cell.balance + Held(r)
  {
  }

  lemma ActConserves(s: Account, s': Account, c: nat, luck: Luck)
    requires MoneyInv(s) && Act(s, s', c, luck)
    ensures MoneyInv(s')
  {
    assert RequestOk(s.requests[c]);
    AdvanceConserves(s.db, s.cell, s.requests[c], luck);
    TotalMoves(s.requests, c, s'.requests[c], Held);
  }

  lemma OtherConserves(s: Account, s': Account)
    requires MoneyInv(s) && Other(s, s')
    ensures MoneyInv(s')
  {
  }

  lemma BeginConserves(s: Account, s': Account, amount: nat, currencyOk: bool)
    requires MoneyInv(s) && Begin(s, s', amount, currencyOk)
    ensures MoneyInv(s')
  {
    TotalAppend(s.requests, Request(amount, currencyOk, EnsuringUser), Held);
  }

  lemma NextConserves(s: Account, s': Account)
    requires MoneyInv(s) && Next(s, s')
    ensures MoneyInv(s')
  {
    if Other(s, s') {
      OtherConserves(s, s');
    } else if c: nat, luck :| Act(s, s', c, luck) {
      ActConserves(s, s', c, luck);
    } else {
      var amount: nat, currencyOk :| Begin(s, s', amount, currencyOk);
      BeginConserves(s, s', amount, currencyOk);
    }
  }

  lemma {:induction false} RunConserves(run: seq<Account>, i: nat)
    requires Run(run) && i < |run|
    ensures MoneyInv(run[i])
  {
    if i > 0 {
      RunConserves(run, i - 1);
      assert Next(run[i - 1], run[i - 1 + 1]);
      NextConserves(run[i - 1], run[i]);
    }
  }

  ghost predicate Quiescent(s: Account) {
    forall c :: 0 <= c < |s.requests| ==> s.requests[c].phase.Replied?
  }

  lemma {:induction false} QuiescentHolds(rs: seq<Request>)
    requires forall c :: 0 <= c < |rs| ==> rs[c].phase.Replied?
    ensures Total(rs, Held) == Total(rs, Paid)
    decreases |rs|
  {
    if rs != [] {
      QuiescentHolds(rs[..|rs| - 1]);
      assert rs[|rs| - 1].phase.Replied?;
    }
  }

  /** The winner's balance store, made over a balance that is not zero. */
  ghost predicate Overwrites(s: Account, s': Account) {
    s.setup == SettingBalance && s'.setup == Ready && s.cell.balance != 0
  }

  lemma LostOnlyInSetUp(s: Account, s': Account)
    requires Next(s, s')
    ensures s'.lost == s.lost + (if s.setup == SettingBalance && s'.setup == Ready then s.cell.balance else 0)
  {
  }

  /** Nothing is lost exactly as long as the winner's balance store has found a zero balance. */
  lemma {:induction false} NothingLostIff(run: seq<Account>, i: nat)
    requires Run(run) && i < |run|
    ensures run[i].lost == 0 <==> forall j :: 0 <= j < i ==> !Overwrites(run[j], run[j + 1])
  {
    if i > 0 {
      NothingLostIff(run, i - 1);
      RunConserves(run, i - 1);
      assert Next(run[i - 1], run[i - 1 + 1]);
      LostOnlyInSetUp(run[i - 1], run[i]);
      assert run[i].lost == 0 <==> run[i - 1].lost == 0 && !Overwrites(run[i - 1], run[i - 1 + 1]);
    }
  }

  /**
   In every reachable state the balance is not negative, and the money is all
   there: in the balance, held by a request, or overwritten by the winner's
   balance store. Once every request has replied, the balance is the deposits less what approved replies debited - so
   a failed or declined one has its money back - exactly when the winner's
   balance store did not run over a balance other than zero.
   */
  lemma MoneyConserved(run: seq<Account>, i: nat)
    requires Run(run) && i < |run|
    ensures run[i].cell.balance >= 0
    ensures run[i].cell.balance + Total(run[i].requests, Held) + run[i].lost == run[i].deposited
    ensures Quiescent(run[i]) ==>
              (run[i].cell.balance == run[i].deposited - Total(run[i].requests, Paid)
               <==> forall j :: 0 <= j < i ==> !Overwrites(run[j], run[j + 1]))
  {
    RunConserves(run, i);
    NothingLostIff(run, i);
    if Quiescent(run[i]) {
      QuiescentHolds(run[i].requests);
    }
  }

  /** The step adds to the deposits before the winner has made its last store. */
  ghost predicate EarlyDeposit(s: Account, s': Account) {
    s.setup != Ready && s'.deposited != s.deposited
  }

  lemma {:induction false} NothingDepositedYet(run: seq<Account>, i: nat)
    requires Run(run) && i < |run| && run[i].setup != Ready
    requires forall j :: 0 <= j < i ==> !EarlyDeposit(run[j], run[j + 1])
    ensures run[i].deposited == 0
  {
    if i > 0 {
      assert Next(run[i - 1], run[i - 1 + 1]) && !EarlyDeposit(run[i - 1], run[i - 1 + 1]);
      NothingDepositedYet(run, i - 1);
    }
  }

  /**
   If every deposit lands after the winner's last store, all money is there at
   every moment, and once every request has replied the balance is the deposits
   less what approved replies debited.
   */
  lemma LateDepositsKept(run: seq<Account>, i: nat)
    requires Run(run) && i < |run|
    requires forall j :: 0 <= j < i ==> !EarlyDeposit(run[j], run[j + 1])
    ensures run[i].cell.balance + Total(run[i].requests, Held) == run[i].deposited
    ensures Quiescent(run[i]) ==> run[i].cell.balance == run[i].deposited - Total(run[i].requests, Paid)
  {
    forall j | 0 <= j < i
      ensures !Overwrites(run[j], run[j + 1])
    {
      if run[j].setup == SettingBalance {
        NothingDepositedYet(run, j);
        RunConserves(run, j);
      }
    }
    RunConserves(run, i);
    NothingLostIff(run, i);
    if Quiescent(run[i]) {
      QuiescentHolds(run[i].requests);
    }
  }

  lemma RunExtends(run: seq<Account>, s: Account)
    requires Run(run) && Next(run[|run| - 1], s)
    ensures Run(run + [s]) && (run + [s])[|run|] == s
  {
    var longer := run + [s];
    forall i | 0 <= i < |longer| - 1
      ensures Next(longer[i], longer[i + 1])
    {
      if i < |run| - 1 {
        assert Next(run[i], run[i + 1]);
      }
    }
  }

  /** A claimed slot before any of the winner's stores. */
  lemma Claimed(db: bool) returns (run: seq<Account>)
    ensures Run(run) && run[|run| - 1] == Account(db, SettingLevel, Cell(0, 0, true), [], 0, 0, 0, false)
    ensures run[0].db == db && forall j :: 0 <= j < |run| ==> run[j].requests == [] && run[j].cell.basic
  {
    var s := Account(db, Free, Cell(0, 0, true), [], 0, 0, 0, false);
    run := [s];
    assert Claim(s, s.(setup := SettingLevel));
    RunExtends(run, s.(setup := SettingLevel));
    run := run + [s.(setup := SettingLevel)];
  }

  /** The winner's three stores, from any state that is still waiting for them. */
  lemma FinishSetUp(run: seq<Account>) returns (longer: seq<Account>)
    requires Run(run) && run[|run| - 1].setup == SettingLevel
    ensures Run(longer)
    ensures var s := run[|run| - 1];
            longer[|longer| - 1] == s.(setup := Ready, cell := Cell(0, 0, true),
                                       lost := s.lost + s.cell.balance, forgotten := s.forgotten + s.cell.txCount)
    ensures run <= longer
    ensures forall j :: |run| <= j < |longer| ==> longer[j].requests == run[|run| - 1].requests && longer[j].cell.basic
  {
    var s := run[|run| - 1];
    var s1 := s.(setup := SettingCount, cell := s.cell.(basic := true));
    var s2 := s1.(setup := SettingBalance, cell := s1.cell.(txCount := 0), forgotten := s1.forgotten + s1.cell.txCount);
    var s3 := s2.(setup := Ready, cell := s2.cell.(balance := 0), lost := s2.lost + s2.cell.balance);
    assert SetUp(s, s1);
    RunExtends(run, s1);
    assert SetUp(s1, s2);
    RunExtends(run + [s1], s2);
    assert SetUp(s2, s3);
    RunExtends(run + [s1] + [s2], s3);
    longer := run + [s1] + [s2] + [s3];
  }

  /** A deposit that lands between the winner's claim and its balance store is lost. */
  lemma EarlyDepositLost(db: bool, amount: nat) returns (run: seq<Account>)
    requires amount <= I64_MAX
    ensures Run(run) && run[|run| - 1] == Account(db, Ready, Cell(0, 0, true), [], amount, amount, 0, false)
  {
    run := Claimed(db);
    var s := run[|run| - 1];
    var s1 := s.(cell := Cell(amount, 0, true), deposited := amount);
    assert Deposit(s, s1, amount);
    RunExtends(run, s1);
    run := FinishSetUp(run + [s1]);
  }

  /** The state after request `c` has taken a step. */
  function After(s: Account, c: nat, luck: Luck): Account
    requires c < |s.requests|
  {
    var (cell, phase) := Advance(s.db, s.cell, s.requests[c], luck);
    Watched(s.(cell := cell, requests := s.requests[c := s.requests[c].(phase := phase)]))
  }

  lemma AfterIsNext(s: Account, c: nat, luck: Luck)
    requires c < |s.requests| && luck.count < U64
    ensures Next(s, After(s, c, luck))
  {
    assert Act(s, After(s, c, luck), c, luck);
  }
}

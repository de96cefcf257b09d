/**
 The transaction count of a card account whose engine has a database: requests
 count up, copy the database's count over the account's, and count back down
 when the database fails them.
 */
module CardCount {
  import opened ByteCodec
  import opened CardQuota
  import opened CardSaga

  // ---- When counting back goes below zero -----------------------------------

  /** The request's next step takes one off the count. */
  predicate Undoing(r: Request) {
    r.phase.UndoingCount? || r.phase.UndoingUnrecorded?
  }

  /** Request `c` takes that step. */
  ghost predicate Undoes(s: Account, s': Account, c: nat) {
    c < |s.requests| && c < |s'.requests| && Undoing(s.requests[c]) && s'.requests[c] != s.requests[c]
  }

  /** It takes the count to 2^64 - 1. */
  ghost predicate Wraps(s: Account, s': Account, c: nat) {
    Undoes(s, s', c) && s'.cell.txCount == U64 - 1
  }

  ghost predicate CountFits(s: Account) {
    s.cell.txCount < U64
    && forall c :: 0 <= c < |s.requests| ==>
         && (s.requests[c].phase.StoringCount? ==> s.requests[c].phase.count < U64)
         && (s.requests[c].phase.StoringDbCount? ==> s.requests[c].phase.count < U64)
  }

  lemma AdvanceFits(db: bool, cell: Cell, r: Request, luck: Luck)
    requires cell.txCount < U64 && luck.count < U64
    requires r.phase.StoringCount? || r.phase.StoringDbCount? ==> r.phase.count < U64
    ensures var (cell', phase) := Advance(db, cell, r, luck);
            cell'.txCount < U64 && (phase.StoringCount? || phase.StoringDbCount? ==> phase.count < U64)
  {
  }

  lemma NextFits(s: Account, s': Account)
    requires CountFits(s) && Next(s, s')
    ensures CountFits(s')
  {
    if c: nat, luck :| Act(s, s', c, luck) {
      AdvanceFits(s.db, s.cell, s.requests[c], luck);
    }
  }

  lemma {:induction false} RunFits(run: seq<Account>, i: nat)
    requires Run(run) && i < |run|
    ensures CountFits(run[i])
  {
    if i > 0 {
      RunFits(run, i - 1);
      assert Next(run[i - 1], run[i - 1 + 1]);
      NextFits(run[i - 1], run[i]);
    }
  }

  /** Counting back wraps exactly when the count it finds is zero, and takes off one otherwise. */
  lemma WrapsIff(run: seq<Account>, i: nat, c: nat)
    requires Run(run) && i < |run| - 1 && Undoes(run[i], run[i + 1], c)
    ensures Wraps(run[i], run[i + 1], c) <==> run[i].cell.txCount == 0
    ensures run[i].cell.txCount != 0 ==> run[i + 1].cell.txCount == run[i].cell.txCount - 1
  {
    RunFits(run, i);
    assert Next(run[i], run[i + 1]);
  }

  /** Without a database nothing is ever counted back, so the count never wraps. */
  lemma NoDatabaseNoWrap(run: seq<Account>, i: nat, c: nat)
    requires Run(run) && i < |run| - 1 && !run[0].db
    ensures !Undoes(run[i], run[i + 1], c)
  {
    RunLocal(run, i);
    assert c < |run[i].requests| ==> Local(run[i].requests[c]);
  }

  // ---- What leads up to it --------------------------------------------------

  /** A request that has been counted, and counts back if the database fails it from now on. */
  function Pending(r: Request): nat {
    if r.phase.CountingInDb? || r.phase.Recording? || r.phase.RefundingUnrecorded? || Undoing(r) then 1 else 0
  }

  /** The count is large enough for every request that may still count back. */
  ghost predicate Covered(s: Account) {
    Total(s.requests, Pending) <= s.cell.txCount
  }

  const NO: Luck := Luck(false, false, 0, true)

  /** Letting the database fail these requests, step by step, makes one of them wrap the count. */
  ghost predicate FailureWraps(s: Account, order: seq<nat>)
    decreases |order|
  {
    order != [] && order[0] < |s.requests| && Pending(s.requests[order[0]]) == 1 &&
    var s' := After(s, order[0], NO);
    Wraps(s, s', order[0]) || FailureWraps(s', order[1..])
  }

  /** What failing a pending request once does to the count and to those still pending. */
  lemma FailedOnce(s: Account, c: nat)
    requires s.db && CountFits(s) && c < |s.requests| && Pending(s.requests[c]) == 1
    ensures var s', r := After(s, c, NO), s.requests[c];
            && s'.db && CountFits(s') && |s'.requests| == |s.requests|
            && (Undoing(r) ==>
                  && Total(s'.requests, Pending) == Total(s.requests, Pending) - 1
                  && s'.cell.txCount == Decrement(s.cell.txCount)
                  && Undoes(s, s', c))
            && (!Undoing(r) ==>
                  && Total(s'.requests, Pending) == Total(s.requests, Pending)
                  && s'.cell.txCount == s.cell.txCount
                  && Pending(s'.requests[c]) == 1 && StepsToUndo(s'.requests[c]) < StepsToUndo(r))
  {
    var s' := After(s, c, NO);
    TotalMoves(s.requests, c, s'.requests[c], Pending);
    AdvanceFits(s.db, s.cell, s.requests[c], NO);
  }

  function StepsToUndo(r: Request): nat {
    if r.phase.Recording? then 2 else if Undoing(r) then 0 else 1
  }

  lemma {:induction false} SomePending(rs: seq<Request>) returns (c: nat)
    requires Total(rs, Pending) > 0
    ensures c < |rs| && Pending(rs[c]) == 1
    decreases |rs|
  {
    c := |rs| - 1;
    if Pending(rs[c]) != 1 {
      c := SomePending(rs[..c]);
    }
  }

  lemma {:induction false} PendingPositive(rs: seq<Request>, c: nat)
    requires c < |rs|
    ensures Total(rs, Pending) >= Pending(rs[c])
    decreases |rs|
  {
    if c < |rs| - 1 {
      PendingPositive(rs[..|rs| - 1], c);
    }
  }

  lemma {:induction false} CoveredNeverWraps(s: Account, order: seq<nat>)
    requires s.db && CountFits(s) && Covered(s)
    ensures !FailureWraps(s, order)
    decreases |order|
  {
    if order != [] && order[0] < |s.requests| && Pending(s.requests[order[0]]) == 1 {
      FailedOnce(s, order[0]);
      PendingPositive(s.requests, order[0]);
      CoveredNeverWraps(After(s, order[0], NO), order[1..]);
    }
  }

  lemma {:induction false} UncoveredWraps(s: Account, c: nat) returns (order: seq<nat>)
    requires s.db && CountFits(s) && !Covered(s) && c < |s.requests| && Pending(s.requests[c]) == 1
    ensures FailureWraps(s, order)
    decreases s.cell.txCount, StepsToUndo(s.requests[c])
  {
    var s' := After(s, c, NO);
    FailedOnce(s, c);
    if Undoing(s.requests[c]) && s.cell.txCount == 0 {
      order := [c];
      assert Wraps(s, s', order[0]);
      assert FailureWraps(s, order);
      return;
    }
    var c' := c;
    if Undoing(s.requests[c]) {
      c' := SomePending(s'.requests);
    }
    var rest := UncoveredWraps(s', c');
    order := [c] + rest;
    assert order[1..] == rest;
  }

  ghost predicate CanWrap(s: Account) {
    exists order: seq<nat> :: FailureWraps(s, order)
  }

  /**
   Failures of the database alone can wrap the count exactly when it is smaller
   than the number of counted requests that may still fail.
   */
  lemma CanWrapIff(s: Account)
    requires s.db && CountFits(s)
    ensures CanWrap(s) <==> !Covered(s)
  {
    if Covered(s) {
      forall order: seq<nat>
        ensures !FailureWraps(s, order)
      {
        CoveredNeverWraps(s, order);
      }
    } else {
      var c := SomePending(s.requests);
      var order := UncoveredWraps(s, c);
      assert FailureWraps(s, order);
    }
  }

  /** Request `c` copies a count of the database's over the account's. */
  ghost predicate Copies(s: Account, s': Account, c: nat) {
    c < |s.requests| && c < |s'.requests| && s'.requests[c] != s.requests[c]
    && (s.requests[c].phase.StoringCount? || s.requests[c].phase.StoringDbCount?)
  }

  /** Request `c` counts past the largest 64-bit count. */
  ghost predicate Overflows(s: Account, s': Account, c: nat) {
    c < |s.requests| && c < |s'.requests| && s'.requests[c] != s.requests[c]
    && s.requests[c].phase.Counting? && s.cell.txCount == U64 - 1
  }

  /** A store or an overflow that leaves the count too small. */
  ghost predicate Uncovers(s: Account, s': Account) {
    && Covered(s) && !Covered(s')
    && ((exists c :: Copies(s, s', c)) || (exists c :: Overflows(s, s', c))
        || (s.setup == SettingCount && s'.setup == SettingBalance))
  }

  /** Some step before moment `i` does so. */
  ghost predicate SomeUncovers(run: seq<Account>, i: nat)
    requires i < |run|
  {
    exists j :: 0 <= j < i && Uncovers(run[j], run[j + 1])
  }

  lemma AdvanceCovers(db: bool, cell: Cell, r: Request, luck: Luck)
    requires cell.txCount < U64 && Pending(r) <= cell.txCount
    requires !r.phase.StoringCount? && !r.phase.StoringDbCount?
    requires r.phase.Counting? ==> cell.txCount != U64 - 1
    ensures var (cell', phase) := Advance(db, cell, r, luck);
            cell'.txCount - Pending(r.(phase := phase)) >= cell.txCount - Pending(r)
  {
  }

  lemma ActMoves(s: Account, s': Account, c: nat, luck: Luck)
    requires Act(s, s', c, luck)
    ensures s'.requests[c] != s.requests[c] || s' == Watched(s)
  {
    assert s.requests[c := s.requests[c]] == s.requests;
  }

  lemma ActKeepsCovered(s: Account, s': Account, c: nat, luck: Luck)
    requires CountFits(s) && Covered(s) && Act(s, s', c, luck)
    ensures Covered(s') || Copies(s, s', c) || Overflows(s, s', c)
  {
    var r := s.requests[c];
    TotalMoves(s.requests, c, s'.requests[c], Pending);
    PendingPositive(s.requests, c);
    if s'.requests[c] != r && !Copies(s, s', c) && !Overflows(s, s', c) {
      AdvanceCovers(s.db, s.cell, r, luck);
    } else {
      ActMoves(s, s', c, luck);
    }
  }

  lemma OtherKeepsCovered(s: Account, s': Account)
    requires Covered(s) && Other(s, s')
    ensures Covered(s') || (s.setup == SettingCount && s'.setup == SettingBalance)
  {
  }

  lemma NextKeepsCovered(s: Account, s': Account)
    requires CountFits(s) && Covered(s) && Next(s, s')
    ensures Covered(s') || Uncovers(s, s')
  {
    if Other(s, s') {
      OtherKeepsCovered(s, s');
    } else if c: nat, luck :| Act(s, s', c, luck) {
      ActKeepsCovered(s, s', c, luck);
    } else {
      var amount: nat, currencyOk :| Begin(s, s', amount, currencyOk);
      TotalAppend(s.requests, Request(amount, currencyOk, EnsuringUser), Pending);
    }
  }

  lemma CoveredStep(run: seq<Account>, i: nat)
    requires Run(run) && i < |run| - 1 && Covered(run[i])
    ensures Covered(run[i + 1]) || Uncovers(run[i], run[i + 1])
  {
    RunFits(run, i);
    NextKeepsCovered(run[i], run[i + 1]);
  }

  lemma {:induction false} CoveredUnless(run: seq<Account>, i: nat)
    requires Run(run) && i < |run|
    ensures Covered(run[i]) || SomeUncovers(run, i)
  {
    if i > 0 {
      CoveredUnless(run, i - 1);
      if SomeUncovers(run, i - 1) {
        var j :| 0 <= j < i - 1 && Uncovers(run[j], run[j + 1]);
        assert SomeUncovers(run, i);
      } else {
        CoveredStep(run, i - 1);
        assert run[i - 1 + 1] == run[i];
      }
    }
  }

  /**
   A run whose count wraps has, earlier on, a store of a count - the database's
   copied over, or the slot winner's zero - or an overflowing increment that
   left the count smaller than the number of requests that may still count back.
   */
  lemma WrapNeedsStore(run: seq<Account>, i: nat, c: nat)
    requires Run(run) && i < |run| - 1 && Wraps(run[i], run[i + 1], c)
    ensures SomeUncovers(run, i)
  {
    CoveredUnless(run, i);
    WrapsIff(run, i, c);
    PendingPositive(run[i].requests, c);
  }

  // ---- A run that wraps -----------------------------------------------------

  lemma Go(run: seq<Account>, c: nat, luck: Luck) returns (longer: seq<Account>)
    requires Run(run) && c < |run[|run| - 1].requests| && luck.count < U64
    ensures Run(longer) && longer == run + [After(run[|run| - 1], c, luck)]
  {
    AfterIsNext(run[|run| - 1], c, luck);
    RunExtends(run, After(run[|run| - 1], c, luck));
    longer := run + [After(run[|run| - 1], c, luck)];
  }

  lemma Enter(run: seq<Account>) returns (longer: seq<Account>)
    requires Run(run) && run[|run| - 1].setup == Ready
    ensures Run(longer) && |longer| == |run| + 1 && longer[0] == run[0]
    ensures var s := run[|run| - 1];
            longer[|run|] == s.(requests := s.requests + [Request(0, true, EnsuringUser)])
  {
    var s := run[|run| - 1];
    var s' := s.(requests := s.requests + [Request(0, true, EnsuringUser)]);
    assert Begin(s, s', 0, true);
    RunExtends(run, s');
    longer := run + [s'];
  }

  /** A ready account with a database, this count and two requests. */
  function Pair(count: nat, first: Phase, second: Phase): Account {
    Account(true, Ready, Cell(0, count, true), [Request(0, true, first), Request(0, true, second)], 0, 0, 0, false)
  }

  /** A run of an engine with a database that ends here. */
  ghost predicate Ends(run: seq<Account>, s: Account) {
    Run(run) && run[0].db && run[|run| - 1] == s
  }

  lemma GoPair(run: seq<Account>, count: nat, first: Phase, second: Phase, c: nat, luck: Luck,
               count': nat, first': Phase, second': Phase)
    returns (longer: seq<Account>)
    requires Ends(run, Pair(count, first, second)) && c < 2 && luck.count < U64
    requires Advance(true, Cell(0, count, true), Request(0, true, if c == 0 then first else second), luck)
          == (Cell(0, count', true), if c == 0 then first' else second')
    requires if c == 0 then second' == second else first' == first
    ensures Ends(longer, Pair(count', first', second'))
  {
    longer := Go(run, c, luck);
  }

  lemma TwoEntered() returns (run: seq<Account>)
    ensures Ends(run, Pair(0, EnsuringUser, EnsuringUser))
  {
    run := Claimed(true);
    var before := run;
    run := FinishSetUp(run);
    assert run[0] == before[0] && run[|run| - 1].requests == [];
    run := Enter(run);
    assert run[|run| - 1].requests == [Request(0, true, EnsuringUser)];
    run := Enter(run);
    assert run[|run| - 1].requests == Pair(0, EnsuringUser, EnsuringUser).requests;
  }

  const ZERO: Luck := Luck(true, true, 0, true)
  const ONE: Luck := Luck(true, true, 1, true)
  const LATE: Phase := StoringCount(0, true)

  /** The first request is about to count when the second has read a count of zero. */
  lemma BothReadZero() returns (run: seq<Account>)
    ensures Ends(run, Pair(0, Counting, LATE))
  {
    run := TwoEntered();
    run := GoPair(run, 0, EnsuringUser, EnsuringUser, 0, ZERO, 0, LoadingCount, EnsuringUser);
    run := GoPair(run, 0, LoadingCount, EnsuringUser, 0, ZERO, 0, LATE, EnsuringUser);
    run := GoPair(run, 0, LATE, EnsuringUser, 0, ZERO, 0, StoringLevel(0, true), EnsuringUser);
    run := GoPair(run, 0, StoringLevel(0, true), EnsuringUser, 0, ZERO, 0, LoadingBalance, EnsuringUser);
    run := GoPair(run, 0, LoadingBalance, EnsuringUser, 0, ZERO, 0, Debiting(0), EnsuringUser);
    run := GoPair(run, 0, Debiting(0), EnsuringUser, 0, ZERO, 0, Counting, EnsuringUser);
    run := GoPair(run, 0, Counting, EnsuringUser, 1, ZERO, 0, Counting, LoadingCount);
    run := GoPair(run, 0, Counting, LoadingCount, 1, ZERO, 0, Counting, LATE);
  }

  /** The first request is counted, the second copies its zero, and the first one's record fails. */
  lemma CopiedLate() returns (run: seq<Account>)
    ensures Ends(run, Pair(0, UndoingUnrecorded, StoringLevel(0, true)))
  {
    run := BothReadZero();
    run := GoPair(run, 0, Counting, LATE, 0, ONE, 1, CountingInDb, LATE);
    run := GoPair(run, 1, CountingInDb, LATE, 0, ONE, 1, StoringDbCount(1), LATE);
    run := GoPair(run, 1, StoringDbCount(1), LATE, 0, ONE, 1, Recording, LATE);
    run := GoPair(run, 1, Recording, LATE, 1, ZERO, 0, Recording, StoringLevel(0, true));
    run := GoPair(run, 0, Recording, StoringLevel(0, true), 0, NO, 0, RefundingUnrecorded, StoringLevel(0, true));
    run := GoPair(run, 0, RefundingUnrecorded, StoringLevel(0, true), 0, NO,
                  0, UndoingUnrecorded, StoringLevel(0, true));
  }

  /**
   A run whose count wraps, with a database that answers every question
   truthfully: the second request reads a count of zero before the first one is
   counted, copies it over the account's count after that, and then the database
   fails to record the first request.
   */
  lemma CountCanWrap() returns (run: seq<Account>)
    ensures Run(run) && run[0].db && |run| > 1 && Wraps(run[|run| - 2], run[|run| - 1], 0)
  {
    run := CopiedLate();
    run := Go(run, 0, NO);
  }
}

/**
 What a card authorisation of src/bin/hyperion_grpc_server.rs answers: when it
 is declined under any interleaving, and its whole outcome when nobody
 interferes, with and without a database.
 */
module CardOutcome {
  import opened ByteCodec
  import opened CardSaga

  // ---- Who is declined ------------------------------------------------------

  /** About to read the balance, or to lose the compare-exchange on it. */
  predicate Reads(cell: Cell, r: Request, luck: Luck) {
    r.phase.LoadingBalance? || (r.phase.Debiting? && !(luck.ok && cell.balance == r.phase.seen))
  }

  /** A request that reads the balance is declined exactly if it finds less than its amount. */
  lemma DeclinedIff(db: bool, cell: Cell, r: Request, luck: Luck)
    requires Reads(cell, r, luck)
    ensures Advance(db, cell, r, luck).0 == cell
    ensures Advance(db, cell, r, luck).1 == RecordingDecline(Declined) <==> cell.balance < r.amount
    ensures Advance(db, cell, r, luck).1 == Debiting(cell.balance) <==> cell.balance >= r.amount
  {
  }

  /** The steps that send a request away are the one for its count and the ones that read the balance. */
  lemma NobodyElseDeclines(db: bool, cell: Cell, r: Request, luck: Luck)
    requires !r.phase.RecordingDecline? && Advance(db, cell, r, luck).1.RecordingDecline?
    ensures Advance(db, cell, r, luck).1 == RecordingDecline(Declined) ==> Reads(cell, r, luck)
    ensures Advance(db, cell, r, luck).1 == RecordingDecline(RequiresKycUpgrade) ==>
              r.phase.LoadingLevel? || r.phase.StoringLevel?
  {
  }

  /** A deposit adds its amount to the balance and changes nothing else. */
  lemma DepositsAdd(s: Account, s': Account, amount: nat)
    requires Deposit(s, s', amount)
    ensures s'.cell == Cell(s.cell.balance + amount, s.cell.txCount, s.cell.basic)
    ensures s'.requests == s.requests
  {
  }

  // ---- A request nobody interferes with -------------------------------------

  /** A request's own steps, one after the other, with these answers from outside. */
  function Steps(db: bool, cell: Cell, r: Request, answers: seq<Luck>): (Cell, Request)
    decreases |answers|
  {
    if answers == [] then (cell, r)
    else
      var (cell', phase) := Advance(db, cell, r, answers[0]);
      Steps(db, cell', r.(phase := phase), answers[1..])
  }

  /** Any such outcome is one of a run. */
  lemma {:induction false} StepsRun(run: seq<Account>, c: nat, answers: seq<Luck>) returns (longer: seq<Account>)
    requires Run(run) && c < |run[|run| - 1].requests|
    requires forall i :: 0 <= i < |answers| ==> answers[i].count < U64
    ensures Run(longer)
    ensures var s, s' := run[|run| - 1], longer[|longer| - 1];
            var (cell, r) := Steps(s.db, s.cell, s.requests[c], answers);
            s'.cell == cell && s'.requests == s.requests[c := r] && s'.db == s.db
    decreases |answers|
  {
    var s := run[|run| - 1];
    if answers == [] {
      longer := run;
      assert s.requests[c := s.requests[c]] == s.requests;
    } else {
      var s1 := After(s, c, answers[0]);
      AfterIsNext(s, c, answers[0]);
      RunExtends(run, s1);
      longer := StepsRun(run + [s1], c, answers[1..]);
      var r := Steps(s.db, s.cell, s.requests[c], answers).1;
      assert s.requests[c := s1.requests[c]][c := r] == s.requests[c := r];
    }
  }

  const YES: Luck := Luck(true, false, 0, true)
  const NO: Luck := Luck(false, false, 0, true)

  lemma OneStep(db: bool, cell: Cell, r: Request, luck: Luck, rest: seq<Luck>)
    ensures Steps(db, cell, r, [luck] + rest) ==
            Steps(db, Advance(db, cell, r, luck).0, r.(phase := Advance(db, cell, r, luck).1), rest)
  {
    assert ([luck] + rest)[1..] == rest;
  }

  /** `n` answers that all say yes. */
  function Yes(n: nat): seq<Luck> {
    if n == 0 then [] else [YES] + Yes(n - 1)
  }

  /** Where `n` own steps without a database take a request. */
  function Alone(at: Place, n: nat): Place
    decreases n
  {
    if n == 0 then at else Alone(Onward(at), n - 1)
  }

  datatype Place = Place(cell: Cell, r: Request)

  function Onward(at: Place): Place {
    var (cell, phase) := Advance(false, at.cell, at.r, YES);
    Place(cell, at.r.(phase := phase))
  }

  lemma {:induction false} StepsAlone(cell: Cell, r: Request, n: nat)
    ensures var end := Alone(Place(cell, r), n);
            Steps(false, cell, r, Yes(n)) == (end.cell, end.r)
    decreases n
  {
    if n > 0 {
      OneStep(false, cell, r, YES, Yes(n - 1));
      var next := Onward(Place(cell, r));
      StepsAlone(next.cell, next.r, n - 1);
    }
  }

  lemma {:induction false} RepliedStays(at: Place, n: nat)
    requires at.r.phase.Replied?
    ensures Alone(at, n) == at
    decreases n
  {
    if n > 0 {
      RepliedStays(at, n - 1);
    }
  }

  lemma TwoSteps(at: Place, middle: Place, end: Place, n: nat)
    requires Onward(at) == middle && Onward(middle) == end && n >= 2
    ensures Alone(at, n) == Alone(end, n - 2)
  {
    assert Alone(at, n) == Alone(middle, n - 1);
  }

  function In(at: Place, phase: Phase): Place {
    at.(r := at.r.(phase := phase))
  }

  lemma LoadsCount(at: Place, n: nat)
    requires at.r.phase.EnsuringUser? && n >= 2
    ensures Alone(at, n) == Alone(In(at, LoadingLevel(at.cell.txCount)), n - 2)
  {
    TwoSteps(at, In(at, LoadingCount), In(at, LoadingLevel(at.cell.txCount)), n);
  }

  /** A request that reads a sufficient balance takes its amount off it. */
  lemma Debits(at: Place, n: nat)
    requires at.r.phase.LoadingBalance? && at.cell.balance >= at.r.amount && n >= 2
    ensures Alone(at, n) ==
            Alone(Place(at.cell.(balance := at.cell.balance - at.r.amount), at.r.(phase := Counting)), n - 2)
  {
    TwoSteps(at, In(at, Debiting(at.cell.balance)),
             Place(at.cell.(balance := at.cell.balance - at.r.amount), at.r.(phase := Counting)), n);
  }

  lemma CountsAlone(at: Place, n: nat)
    requires at.r.phase.Counting? && at.cell.txCount < U64 - 1 && n >= 2
    ensures Alone(at, n) == Place(at.cell.(txCount := at.cell.txCount + 1), at.r.(phase := Replied(Approved)))
  {
    var counted := at.cell.(txCount := at.cell.txCount + 1);
    TwoSteps(at, Place(counted, at.r.(phase := Recording)), Place(counted, at.r.(phase := Replied(Approved))), n);
    RepliedStays(Place(counted, at.r.(phase := Replied(Approved))), n - 2);
  }

  lemma Declines(at: Place, n: nat)
    requires at.r.phase.LoadingBalance? && at.cell.balance < at.r.amount && n >= 2
    ensures Alone(at, n) == In(at, Replied(Declined))
  {
    TwoSteps(at, In(at, RecordingDecline(Declined)), In(at, Replied(Declined)), n);
    RepliedStays(In(at, Replied(Declined)), n - 2);
  }

  lemma Pays(at: Place, n: nat)
    requires at.r.phase.LoadingBalance? && at.cell.balance >= at.r.amount && at.cell.txCount < U64 - 1 && n >= 4
    ensures Alone(at, n) == Place(Cell(at.cell.balance - at.r.amount, at.cell.txCount + 1, at.cell.basic),
                                  at.r.(phase := Replied(Approved)))
  {
    Debits(at, n);
    CountsAlone(Place(at.cell.(balance := at.cell.balance - at.r.amount), at.r.(phase := Counting)), n - 2);
  }

  /** What the level it loads decides. */
  lemma PassesOrNot(at: Place, n: nat)
    requires at.r.phase.LoadingLevel? && n >= 2
    ensures at.cell.basic && at.r.phase.count >= 100 ==> Alone(at, n) == In(at, Replied(RequiresKycUpgrade))
    ensures !(at.cell.basic && at.r.phase.count >= 100) && !at.r.currencyOk ==> Alone(at, n) == In(at, Replied(Failed))
    ensures !(at.cell.basic && at.r.phase.count >= 100) && at.r.currencyOk ==>
              Alone(at, n) == Alone(In(at, LoadingBalance), n - 1)
  {
    if at.cell.basic && at.r.phase.count >= 100 {
      TwoSteps(at, In(at, RecordingDecline(RequiresKycUpgrade)), In(at, Replied(RequiresKycUpgrade)), n);
      RepliedStays(In(at, Replied(RequiresKycUpgrade)), n - 2);
    } else if !at.r.currencyOk {
      RepliedStays(In(at, Replied(Failed)), n - 1);
    }
  }

  /**
   Without a database a lone request is answered within eight steps by three
   comparisons: a basic account with a hundred transactions is sent to upgrade; a
   bad currency fails; an amount above the balance is declined; anything else is
   approved, debited by exactly its amount and counted. Nothing else changes the
   account.
   */
  lemma LoneRequest(cell: Cell, amount: nat, currencyOk: bool, n: nat)
    requires cell.txCount < U64 - 1 && n >= 8
    ensures Steps(false, cell, Request(amount, currencyOk, EnsuringUser), Yes(n)) ==
            if cell.basic && cell.txCount >= 100 then
              (cell, Request(amount, currencyOk, Replied(RequiresKycUpgrade)))
            else if !currencyOk then (cell, Request(amount, currencyOk, Replied(Failed)))
            else if cell.balance < amount then (cell, Request(amount, currencyOk, Replied(Declined)))
            else (Cell(cell.balance - amount, cell.txCount + 1, cell.basic),
                  Request(amount, currencyOk, Replied(Approved)))
  {
    var at := Place(cell, Request(amount, currencyOk, EnsuringUser));
    StepsAlone(at.cell, at.r, n);
    LoadsCount(at, n);
    PassesOrNot(In(at, LoadingLevel(cell.txCount)), n - 2);
    if cell.balance < amount {
      Declines(In(at, LoadingBalance), n - 3);
    } else {
      Pays(In(at, LoadingBalance), n - 3);
    }
  }

  // ---- With a database ------------------------------------------------------

  /** What the database answers a request: its fetch, its increment, and whether it records the outcome. */
  datatype Replies = Replies(found: bool, count: nat, basic: bool, counted: bool, next: nat, records: bool)

  /** The account as the limit check sees it. */
  function Seen(cell: Cell, d: Replies): Cell {
    if d.found then Cell(cell.balance, d.count, d.basic) else cell
  }

  lemma Asks(cell: Cell, r: Request, luck: Luck, rest: seq<Luck>, cell': Cell, phase: Phase)
    requires Advance(true, cell, r, luck) == (cell', phase)
    ensures Steps(true, cell, r, [luck] + rest) == Steps(true, cell', r.(phase := phase), rest)
  {
    OneStep(true, cell, r, luck, rest);
  }

  lemma {:induction false} StepsAppend(db: bool, cell: Cell, r: Request, a: seq<Luck>, b: seq<Luck>)
    ensures var (cell', r') := Steps(db, cell, r, a);
            Steps(db, cell, r, a + b) == Steps(db, cell', r', b)
    decreases |a|
  {
    if a == [] {
      assert a + b == b;
    } else {
      var (cell1, phase) := Advance(db, cell, r, a[0]);
      assert (a + b)[1..] == a[1..] + b;
      StepsAppend(db, cell1, r.(phase := phase), a[1..], b);
    }
  }

  /** The fetch decides what is seen, and the seen count and level whether the request goes on. */
  lemma FetchDecides(cell: Cell, amount: nat, currencyOk: bool, d: Replies)
    ensures var r := Request(amount, currencyOk, EnsuringUser);
            Steps(true, cell, r, [YES, Luck(true, d.found, d.count, d.basic)] + (if d.found then [YES, YES] else [YES]))
            == (Seen(cell, d),
                r.(phase := if Seen(cell, d).txCount >= 100 && Seen(cell, d).basic then
                              RecordingDecline(RequiresKycUpgrade)
                            else if !currencyOk then Replied(Failed)
                            else LoadingBalance))
  {
    var r, fetch := Request(amount, currencyOk, EnsuringUser), Luck(true, d.found, d.count, d.basic);
    var none: seq<Luck> := [];
    Asks(cell, r, YES, [fetch] + (if d.found then [YES, YES] else [YES]), cell, LoadingCount);
    if d.found {
      assert [YES, fetch] + [YES, YES] == [YES] + ([fetch] + [YES, YES]);
      Asks(cell, r.(phase := LoadingCount), fetch, [YES, YES], cell, StoringCount(d.count, d.basic));
      var copied := cell.(txCount := d.count);
      assert [YES, YES] == [YES] + [YES] && [YES] == [YES] + none;
      Asks(cell, r.(phase := StoringCount(d.count, d.basic)), YES, [YES], copied, StoringLevel(d.count, d.basic));
      Asks(copied, r.(phase := StoringLevel(d.count, d.basic)), YES, none, Seen(cell, d),
           Advance(true, copied, r.(phase := StoringLevel(d.count, d.basic)), YES).1);
    } else {
      assert [YES, fetch] + [YES] == [YES] + ([fetch] + [YES]);
      Asks(cell, r.(phase := LoadingCount), fetch, [YES], cell, LoadingLevel(cell.txCount));
      assert [YES] == [YES] + none;
      Asks(cell, r.(phase := LoadingLevel(cell.txCount)), YES, none, cell,
           Advance(true, cell, r.(phase := LoadingLevel(cell.txCount)), YES).1);
    }
  }

  function Say(ok: bool, count: nat): Luck {
    Luck(ok, false, count, true)
  }

  /** A debited request counts itself and asks the database to count it. */
  lemma Counts(cell: Cell, r: Request, ok: bool, next: nat)
    requires r.phase.Counting?
    ensures Steps(true, cell, r, [YES, Say(ok, next)]) ==
            (cell.(txCount := Increment(cell.txCount)),
             r.(phase := if ok then StoringDbCount(next) else UndoingCount))
  {
    StepList2(true, cell, r, YES, Say(ok, next));
  }

  lemma Uncounts(cell: Cell, r: Request)
    requires r.phase.UndoingCount?
    ensures Steps(true, cell, r, [YES, YES]) ==
            (Cell(cell.balance + r.amount, Decrement(cell.txCount), cell.basic), r.(phase := Replied(Failed)))
  {
    StepList2(true, cell, r, YES, YES);
  }

  lemma Records(cell: Cell, r: Request, luck: Luck)
    requires r.phase.StoringDbCount?
    ensures Steps(true, cell, r, [YES, luck]) ==
            (cell.(txCount := r.phase.count),
             r.(phase := if luck.ok then Replied(Approved) else RefundingUnrecorded))
  {
    StepList2(true, cell, r, YES, luck);
  }

  lemma Unrecords(cell: Cell, r: Request)
    requires r.phase.RefundingUnrecorded?
    ensures Steps(true, cell, r, [YES, YES]) ==
            (Cell(cell.balance + r.amount, Decrement(cell.txCount), cell.basic), r.(phase := Replied(Failed)))
  {
    StepList2(true, cell, r, YES, YES);
  }

  /** A request that is debited and then counted or not, recorded or not. */
  lemma CountsAndRecords(cell: Cell, r: Request, d: Replies)
    requires r.phase.Counting? && cell.txCount < U64
    ensures d.counted && d.records ==>
              Steps(true, cell, r, [YES, Say(true, d.next)] + [YES, YES])
              == (cell.(txCount := d.next), r.(phase := Replied(Approved)))
    ensures d.counted && !d.records ==>
              Steps(true, cell, r, [YES, Say(true, d.next)] + ([YES, NO] + [YES, YES]))
              == (Cell(cell.balance + r.amount, Decrement(d.next), cell.basic), r.(phase := Replied(Failed)))
    ensures !d.counted ==>
              Steps(true, cell, r, [YES, Say(false, d.next)] + [YES, YES])
              == (cell.(balance := cell.balance + r.amount), r.(phase := Replied(Failed)))
  {
    var counted, stored := cell.(txCount := Increment(cell.txCount)), cell.(txCount := d.next);
    var say := [YES, Say(d.counted, d.next)];
    Counts(cell, r, d.counted, d.next);
    if !d.counted {
      StepsAppend(true, cell, r, say, [YES, YES]);
      Uncounts(counted, r.(phase := UndoingCount));
    } else if d.records {
      StepsAppend(true, cell, r, say, [YES, YES]);
      Records(counted, r.(phase := StoringDbCount(d.next)), YES);
    } else {
      StepsAppend(true, cell, r, say, [YES, NO] + [YES, YES]);
      StepsAppend(true, counted, r.(phase := StoringDbCount(d.next)), [YES, NO], [YES, YES]);
      Records(counted, r.(phase := StoringDbCount(d.next)), NO);
      Unrecords(stored, r.(phase := RefundingUnrecorded));
    }
  }

  /** One own step. */
  function Step(db: bool, at: (Cell, Request), luck: Luck): (Cell, Request) {
    var (cell, phase) := Advance(db, at.0, at.1, luck);
    (cell, at.1.(phase := phase))
  }

  lemma StepList2(db: bool, cell: Cell, r: Request, a: Luck, b: Luck)
    ensures Steps(db, cell, r, [a, b]) == Step(db, Step(db, (cell, r), a), b)
  {
    var none: seq<Luck> := [];
    assert [a, b] == [a] + ([b] + none);
    OneStep(db, cell, r, a, [b] + none);
    var at := Step(db, (cell, r), a);
    OneStep(db, at.0, at.1, b, none);
  }

  /** The last answers, from the database's count on. */
  function EndOf(d: Replies): seq<Luck> {
    if !d.counted then [YES, Say(false, d.next)] + [YES, YES]
    else if d.records then [YES, Say(true, d.next)] + [YES, YES]
    else [YES, Say(true, d.next)] + ([YES, NO] + [YES, YES])
  }

  /** The answers of a request let through, on an account with this balance. */
  function Ending(balance: int, amount: nat, d: Replies): seq<Luck> {
    if balance < amount then [YES, Say(d.records, 0)] else [YES, YES] + EndOf(d)
  }

  /** All answers of a lone request on the database, in the order it asks for them. */
  function Answers(cell: Cell, amount: nat, d: Replies): seq<Luck> {
    ([YES, Luck(true, d.found, d.count, d.basic)] + (if d.found then [YES, YES] else [YES]))
    + Ending(cell.balance, amount, d)
  }

  lemma ReadsAndDebits(cell: Cell, r: Request, d: Replies)
    requires r.phase.LoadingBalance?
    ensures cell.balance < r.amount ==>
              Steps(true, cell, r, [YES, Say(d.records, 0)])
              == (cell, r.(phase := Replied(if d.records then Declined else Failed)))
    ensures cell.balance >= r.amount ==>
              Steps(true, cell, r, [YES, YES])
              == (cell.(balance := cell.balance - r.amount), r.(phase := Counting))
  {
    StepList2(true, cell, r, YES, Say(d.records, 0));
    StepList2(true, cell, r, YES, YES);
  }

  lemma LetThrough(cell: Cell, r: Request, d: Replies)
    requires r.phase.LoadingBalance? && cell.txCount < U64
    ensures Steps(true, cell, r, Ending(cell.balance, r.amount, d)) == OutcomeOf(cell, r, d)
  {
    ReadsAndDebits(cell, r, d);
    if cell.balance >= r.amount {
      StepsAppend(true, cell, r, [YES, YES], EndOf(d));
      CountsAndRecords(cell.(balance := cell.balance - r.amount), r.(phase := Counting), d);
    }
  }

  /**
   Below its amount a request is declined, and else approved exactly if the
   database counts and records it - then it is debited by exactly its amount and
   the count is the database's. If the database fails either, the balance is what
   it was.
   */
  function OutcomeOf(cell: Cell, r: Request, d: Replies): (Cell, Request) {
    if cell.balance < r.amount then (cell, r.(phase := Replied(if d.records then Declined else Failed)))
    else if !d.counted then (cell, r.(phase := Replied(Failed)))
    else if d.records then (Cell(cell.balance - r.amount, d.next, cell.basic), r.(phase := Replied(Approved)))
    else (cell.(txCount := Decrement(d.next)), r.(phase := Replied(Failed)))
  }

  /** With a database a lone request that is let through has that outcome, on the account the fetch left. */
  lemma LoneRequestWithDatabase(cell: Cell, amount: nat, d: Replies)
    requires Seen(cell, d).txCount < U64 && !(Seen(cell, d).txCount >= 100 && Seen(cell, d).basic)
    ensures Steps(true, cell, Request(amount, true, EnsuringUser), Answers(cell, amount, d)) ==
            OutcomeOf(Seen(cell, d), Request(amount, true, LoadingBalance), d)
  {
    var r := Request(amount, true, EnsuringUser);
    FetchDecides(cell, amount, true, d);
    StepsAppend(true, cell, r, [YES, Luck(true, d.found, d.count, d.basic)] + (if d.found then [YES, YES] else [YES]),
                Ending(cell.balance, amount, d));
    LetThrough(Seen(cell, d), r.(phase := LoadingBalance), d);
  }

  // ---- What an approved KYC check changes -----------------------------------

  /** A request that has loaded a count of a hundred or more is let through exactly on an approved account. */
  lemma ApprovalLiftsLimit(s: Account, s': Account, approved: bool, r: Request, luck: Luck)
    requires SetLevel(s, s', approved) && r.phase.LoadingLevel? && r.phase.count >= 100 && r.currencyOk
    ensures Advance(s'.db, s'.cell, r, luck).1
         == if approved then LoadingBalance else RecordingDecline(RequiresKycUpgrade)
    ensures s.setup != Free && s'.cell == s.cell.(basic := s'.cell.basic)
  {
  }
}

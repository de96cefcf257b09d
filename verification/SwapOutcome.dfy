/**
 What one swap of src/blockchain/ledger.rs comes to: its price, when it is
 refused, and its whole effect when nobody interferes; and when the logger of
 src/bin/hyperion_raw_ingress.rs writes to its file.
 */
module SwapOutcome {
  import opened ByteCodec
  import opened SwapLedger

  // ---- The price ------------------------------------------------------------

  /** `eurc` micro-units are what `micro` millionths of a unit round down to. */
  ghost predicate RoundsDown(micro: nat, eurc: nat) {
    1_000_000 * eurc <= micro < 1_000_000 * (eurc + 1)
  }

  /** The price of `amount` at `fxRate`, of the largest 64-bit word if the product overflows it. */
  lemma PriceRoundsDown(amount: nat, fxRate: nat)
    ensures amount * fxRate <= 0xFFFF_FFFF_FFFF_FFFF ==> RoundsDown(amount * fxRate, EurcAmount(amount, fxRate))
    ensures amount * fxRate > 0xFFFF_FFFF_FFFF_FFFF ==>
              RoundsDown(0xFFFF_FFFF_FFFF_FFFF, EurcAmount(amount, fxRate))
  {
  }

  /** Every swap of a run, and so every log record, credits a millionth of its saturated product, rounded down. */
  lemma CreditsThePrice(run: seq<State>, i: nat, c: nat)
    requires Run(run) && i < |run| && c < |run[i].swaps|
    ensures var swap := run[i].swaps[c];
            RoundsDown(if swap.amount * swap.fxRate <= 0xFFFF_FFFF_FFFF_FFFF then swap.amount * swap.fxRate
                       else 0xFFFF_FFFF_FFFF_FFFF, swap.eurc)
  {
    PricedBySaturation(run, i, c);
    PriceRoundsDown(run[i].swaps[c].amount, run[i].swaps[c].fxRate);
  }

  /** Balances wrap at 64 bits. */
  lemma {:induction false} AddingWraps(x: nat, y: nat)
    requires x < U64
    ensures WrappingAdd(x, y) == (x + y) % 0x1_0000_0000_0000_0000
    decreases y
  {
    if x + y >= U64 && y >= U64 {
      AddingWraps(x, y - U64);
    }
  }

  // ---- Who is refused -------------------------------------------------------

  /** A swap that loads its source balance is refused exactly if it finds less than its amount there. */
  lemma RefusedIff(s: State, s': State, c: nat)
    requires SwapStep(s, s', c) && s.swaps[c].phase.Debiting?
    ensures c < |s'.swaps| && s.swaps[c].src < |s.usdt|
    ensures s'.swaps[c].phase == Rejected(InsufficientBalance) <==> s.usdt[s.swaps[c].src] < s.swaps[c].amount
    ensures s'.swaps[c].phase.Rejected? <==> s'.swaps[c].phase == Rejected(InsufficientBalance)
  {
  }

  /** Refused for its accounts exactly if one of `n` does not exist. */
  ghost predicate RightlyInvalid(swap: Swap, n: nat) {
    swap.phase == Rejected(InvalidAccount) <==> swap.src >= n || swap.dst >= n
  }

  lemma InvalidBegins(s: State, s': State, swap: Swap, n: nat)
    requires Begin(s, s', swap) && |s.usdt| == |s.eurc| == n
    ensures RightlyInvalid(s'.swaps[|s.swaps|], n)
  {
  }

  lemma InvalidMoves(s: State, s': State, d: nat, c: nat, n: nat)
    requires SwapStep(s, s', d) || Send(s, s', d)
    requires c < |s.swaps| && RightlyInvalid(s.swaps[c], n) && |s.usdt| == |s.eurc| == n
    ensures c < |s'.swaps| && RightlyInvalid(s'.swaps[c], n)
  {
  }

  lemma InvalidNext(s: State, s': State, c: nat, n: nat)
    requires Next(s, s') && c < |s'.swaps| && |s.usdt| == |s.eurc| == n
    requires c < |s.swaps| ==> RightlyInvalid(s.swaps[c], n)
    ensures RightlyInvalid(s'.swaps[c], n)
  {
    if swap :| Begin(s, s', swap) {
      InvalidBegins(s, s', swap, n);
    } else if d: nat :| SwapStep(s, s', d) || Send(s, s', d) {
      InvalidMoves(s, s', d, c, n);
    }
  }

  /** Every swap is, and there are `n` accounts of either kind. */
  ghost predicate AllRightlyInvalid(s: State, n: nat) {
    |s.usdt| == |s.eurc| == n && forall c :: 0 <= c < |s.swaps| ==> RightlyInvalid(s.swaps[c], n)
  }

  lemma KeepsAccounts(s: State, s': State)
    requires Next(s, s') && |s.usdt| == |s.eurc|
    ensures |s'.usdt| == |s'.eurc| == |s.usdt|
  {
  }

  lemma InvalidStep(s: State, s': State, n: nat)
    requires AllRightlyInvalid(s, n) && Next(s, s')
    ensures AllRightlyInvalid(s', n)
  {
    KeepsAccounts(s, s');
    forall c | 0 <= c < |s'.swaps|
      ensures RightlyInvalid(s'.swaps[c], n)
    {
      InvalidNext(s, s', c, n);
    }
  }

  /** In every run a swap is refused for its accounts exactly if one of them does not exist. */
  lemma {:induction false} InvalidIff(run: seq<State>, i: nat)
    requires Run(run) && i < |run|
    ensures AllRightlyInvalid(run[i], |run[0].usdt|)
  {
    if i > 0 {
      InvalidIff(run, i - 1);
      assert Next(run[i - 1], run[i - 1 + 1]);
      InvalidStep(run[i - 1], run[i], |run[0].usdt|);
    }
  }

  // ---- A swap nobody interferes with ----------------------------------------

  /** States that follow one another. */
  ghost predicate Path(path: seq<State>) {
    path != [] && forall i :: 0 <= i < |path| - 1 ==> Next(path[i], path[i + 1])
  }

  lemma PathStep(path: seq<State>, s: State)
    requires Path(path) && Next(path[|path| - 1], s)
    ensures Path(path + [s])
  {
    var longer := path + [s];
    forall i | 0 <= i < |longer| - 1
      ensures Next(longer[i], longer[i + 1])
    {
      if i < |path| - 1 {
        assert Next(path[i], path[i + 1]);
      }
    }
  }

  function Started(s: State, swap: Swap): State {
    s.(swaps := s.swaps + [swap])
  }

  /** The last swap has moved on, with these balances. */
  function Onward(s: State, swap: Swap, usdt: seq<int>, eurc: seq<Word>, phase: Phase): State {
    s.(usdt := usdt, eurc := eurc, swaps := s.swaps + [swap.(phase := phase)])
  }

  lemma OwnStep(path: seq<State>, s: State, s': State, c: nat)
    requires Path(path) && path[|path| - 1] == s && SwapStep(s, s', c)
    ensures Path(path + [s'])
  {
    PathStep(path, s');
  }

  /** A new swap of these accounts, amounts and rate. */
  function NewSwap(s: State, src: nat, dst: nat, amount: nat, fxRate: nat): Swap {
    Swap(src, dst, amount, fxRate, EurcAmount(amount, fxRate),
         if src < |s.usdt| && dst < |s.eurc| then Debiting else Rejected(InvalidAccount))
  }

  lemma Starts(s: State, src: nat, dst: nat, amount: nat, fxRate: nat) returns (path: seq<State>)
    requires amount < U64 && fxRate < U64
    ensures Path(path) && path[0] == s
    ensures path[|path| - 1] == Started(s, NewSwap(s, src, dst, amount, fxRate))
  {
    var swap := NewSwap(s, src, dst, amount, fxRate);
    assert Begin(s, Started(s, swap), swap);
    PathStep([s], Started(s, swap));
    path := [s, Started(s, swap)];
    assert path == [s] + [Started(s, swap)];
  }

  lemma MovedLast(s: State, swap: Swap, usdt: seq<int>, eurc: seq<Word>, before: Phase, after: Phase)
    ensures Moved(Onward(s, swap, usdt, eurc, before), |s.swaps|, after) == s.swaps + [swap.(phase := after)]
  {
  }

  /** Alone, a swap within its source balance takes its amount there and credits its price, and nothing else. */
  lemma LoneSwap(s: State, src: nat, dst: nat, amount: nat, fxRate: nat) returns (path: seq<State>, eurc: nat)
    requires amount < U64 && fxRate < U64 && src < |s.usdt| && dst < |s.eurc| && amount <= s.usdt[src]
    ensures Path(path) && path[0] == s
    ensures RoundsDown(if amount * fxRate < U64 then amount * fxRate else U64 - 1, eurc)
    ensures path[|path| - 1] ==
            s.(usdt := s.usdt[src := s.usdt[src] - amount],
               eurc := s.eurc[dst := (s.eurc[dst] + eurc) % U64],
               swaps := s.swaps + [Swap(src, dst, amount, fxRate, eurc, Swapped)])
  {
    var swap, c := NewSwap(s, src, dst, amount, fxRate), |s.swaps|;
    eurc := EurcAmount(amount, fxRate);
    PriceRoundsDown(amount, fxRate);
    AddingWraps(s.eurc[dst], eurc);
    path := Starts(s, src, dst, amount, fxRate);
    var paid, seen, read := s.usdt[src := s.usdt[src] - amount], s.usdt[src], s.eurc[dst];
    MovedLast(s, swap, s.usdt, s.eurc, Debiting, DebitCas(seen));
    MovedLast(s, swap, s.usdt, s.eurc, DebitCas(seen), Crediting);
    MovedLast(s, swap, paid, s.eurc, Crediting, CreditCas(read));
    MovedLast(s, swap, paid, s.eurc, CreditCas(read), Swapped);
    var s1 := Onward(s, swap, s.usdt, s.eurc, Debiting);
    var s2 := Onward(s, swap, s.usdt, s.eurc, DebitCas(seen));
    var s3 := Onward(s, swap, paid, s.eurc, Crediting);
    var s4 := Onward(s, swap, paid, s.eurc, CreditCas(read));
    var s5 := Onward(s, swap, paid, s.eurc[dst := WrappingAdd(read, eurc)], Swapped);
    assert s1 == Started(s, swap);
    assert LoadUsdt(s1, s2, c);
    OwnStep(path, s1, s2, c);
    assert TryDebit(s2, s3, c);
    OwnStep(path + [s2], s2, s3, c);
    assert LoadEurc(s3, s4, c);
    OwnStep(path + [s2] + [s3], s3, s4, c);
    assert TryCredit(s4, s5, c);
    OwnStep(path + [s2] + [s3] + [s4], s4, s5, c);
    path := path + [s2] + [s3] + [s4] + [s5];
  }

  // ---- The logger -----------------------------------------------------------

  /** A received record is written, with all that was held back, exactly if 63 records were waiting. */
  lemma WritesEvery64(s: State, s': State)
    requires LogOk(s) && Receive(s, s')
    ensures s'.wal == s.wal <==> |s.batch| < 63
    ensures |s.batch| < 63 ==> s'.batch == s.batch + [s.queue[0]]
    ensures |s.batch| == 63 ==> s'.wal == s.wal + s.batch + [s.queue[0]] && s'.batch == []
  {
    assert |s.batch| <= 63;
    if |s.batch| == 63 {
      assert s'.wal == s.wal + (s.batch + [s.queue[0]]);
      assert |s'.wal| == |s.wal| + 64;
    }
  }

  /** What is held back is written once nothing is waiting, and not before. */
  lemma WritesRest(s: State)
    ensures (exists s' :: Drain(s, s')) <==> s.queue == []
    ensures forall s' :: Drain(s, s') ==> s'.wal == s.wal + s.batch && s'.batch == [] && s'.queue == []
  {
    if s.queue == [] {
      assert Drain(s, s.(batch := [], wal := s.wal + s.batch));
    }
  }

  /** A finished swap can hand over its record exactly while fewer than 1024 are on their way. */
  lemma SendsBelow1024(s: State, c: nat)
    requires At(s, c) && s.swaps[c].phase == Swapped
    ensures (exists s' :: Send(s, s', c)) <==> |s.queue| < 1024
    ensures forall s' :: Send(s, s', c) ==>
              s'.queue == s.queue + [Record(s.swaps[c].src, s.swaps[c].dst, s.swaps[c].amount, s.swaps[c].eurc)]
  {
    if |s.queue| < 1024 {
      assert Send(s, s.(queue := s.queue + [RecordOf(s.swaps[c])], swaps := Moved(s, c, Logged)), c);
    }
  }
}

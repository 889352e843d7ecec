/** Native SOL transfers read off the balances before and after a transaction. */
module NativeTransfers {
  import opened Wrappers

  datatype NativeTransfer = NativeTransfer(fromUserAccount: string, toUserAccount: string, amount: int)

  const TWO_63: int := 0x8000_0000_0000_0000
  const TWO_64: int := 0x1_0000_0000_0000_0000

  predicate Int64(x: int) { -TWO_63 <= x < TWO_63 }

  /** 64-bit subtraction, which wraps around. */
  function Sub64(a: int, b: int): (r: int)
    ensures Int64(r)
    ensures Int64(a - b) ==> r == a - b
    ensures (r - (a - b)) % TWO_64 == 0
  {
    (a - b + TWO_63) % TWO_64 - TWO_63
  }

  predicate Gains(pre: seq<int>, post: seq<int>, i: nat)
    requires i < |pre| == |post|
  {
    Sub64(post[i], pre[i]) > 0
  }

  predicate Loses(pre: seq<int>, post: seq<int>, j: nat)
    requires j < |pre| == |post|
  {
    pre[j] > post[j] && Sub64(pre[j], post[j]) > 0
  }

  /** The first losing account from index `j` on. */
  function FirstLoser(pre: seq<int>, post: seq<int>, j: nat): (r: Option<nat>)
    requires j <= |pre| == |post|
    ensures r.Some? ==> j <= r.value < |pre| && Loses(pre, post, r.value)
    ensures forall k | j <= k < (if r.Some? then r.value else |pre|) :: !Loses(pre, post, k)
    decreases |pre| - j
  {
    if j == |pre| then None else if Loses(pre, post, j) then Some(j) else FirstLoser(pre, post, j + 1)
  }

  /** For each gaining account among the first `n`, in order: its full gain, from the first losing account. */
  function Transfers(keys: seq<string>, pre: seq<int>, post: seq<int>, n: nat): seq<NativeTransfer>
    requires n <= |keys| == |pre| == |post|
  {
    if n == 0 then []
    else
      var payer := FirstLoser(pre, post, 0);
      Transfers(keys, pre, post, n - 1) +
      if Gains(pre, post, n - 1) && payer.Some?
      then [NativeTransfer(keys[payer.value], keys[n - 1], Sub64(post[n - 1], pre[n - 1]))]
      else []
  }

  /** No account both gains and loses, even when the subtraction wraps. */
  lemma GainersDoNotLose(pre: seq<int>, post: seq<int>, i: nat)
    requires i < |pre| == |post| && Int64(pre[i]) && Int64(post[i]) && Gains(pre, post, i)
    ensures !Loses(pre, post, i)
  {
  }

  /** Non-negative balances, whose differences do not wrap. */
  predicate Balances(s: seq<int>) {
    forall i | 0 <= i < |s| :: 0 <= s[i] < TWO_63
  }

  /** Read from the balances alone: with at least one loser there is one transfer for each gaining account
      in order, from the first loser; with none there is nothing. */
  lemma TransfersOfBalances(keys: seq<string>, pre: seq<int>, post: seq<int>) returns (gainers: seq<nat>)
    requires |keys| == |pre| == |post| && Balances(pre) && Balances(post)
    ensures forall i | 0 <= i < |gainers| :: gainers[i] < |keys| && post[gainers[i]] > pre[gainers[i]]
    ensures forall g | 0 <= g < |keys| && post[g] > pre[g] :: g in gainers
    ensures forall i, j | 0 <= i < j < |gainers| :: gainers[i] < gainers[j]
    ensures forall p | 0 <= p < |keys| && pre[p] > post[p] && (forall j | 0 <= j < p :: pre[j] <= post[j]) ::
              var ts := Transfers(keys, pre, post, |keys|);
              |ts| == |gainers| && forall i | 0 <= i < |ts| ::
                ts[i].fromUserAccount == keys[p] && ts[i].toUserAccount == keys[gainers[i]]
                && ts[i].amount == post[gainers[i]] - pre[gainers[i]]
    ensures (forall j | 0 <= j < |keys| :: pre[j] <= post[j]) ==> Transfers(keys, pre, post, |keys|) == []
  {
    hide Gains, Loses, Gainers, Transfers, FirstLoser;
    gainers := Gainers(pre, post, |keys|);
    GainersInOrder(pre, post, |keys|);
    forall p | 0 <= p < |keys| && pre[p] > post[p] && forall j | 0 <= j < p :: pre[j] <= post[j]
      ensures FirstLoser(pre, post, 0) == Some(p)
    {
      FirstLoserIs(pre, post, p);
    }
    var first := FirstLoser(pre, post, 0);
    if first.Some? {
      LosesIsDecrease(pre, post, first.value);
      TransfersAreGains(keys, pre, post, |keys|, first.value);
    } else {
      NoPayerNoTransfers(keys, pre, post, |keys|);
    }
  }

  lemma FirstLoserIs(pre: seq<int>, post: seq<int>, p: nat)
    requires p < |pre| == |post| && Balances(pre) && Balances(post)
    requires pre[p] > post[p] && forall j | 0 <= j < p :: pre[j] <= post[j]
    ensures FirstLoser(pre, post, 0) == Some(p)
  {
    forall j | 0 <= j < |pre| ensures Loses(pre, post, j) <==> pre[j] > post[j] { LosesIsDecrease(pre, post, j); }
    hide Loses;
  }

  /** `gainers` lists the gaining accounts below `n`, in order. */
  ghost predicate ListsGainers(gainers: seq<nat>, pre: seq<int>, post: seq<int>, n: nat)
    requires n <= |pre| == |post|
  {
    && (forall i | 0 <= i < |gainers| :: gainers[i] < n && post[gainers[i]] > pre[gainers[i]])
    && (forall g | 0 <= g < n && post[g] > pre[g] :: g in gainers)
    && (forall i, j | 0 <= i < j < |gainers| :: gainers[i] < gainers[j])
  }

  lemma ListOneMore(gainers: seq<nat>, pre: seq<int>, post: seq<int>, n: nat)
    requires n < |pre| == |post| && ListsGainers(gainers, pre, post, n)
    ensures ListsGainers(gainers + if post[n] > pre[n] then [n] else [], pre, post, n + 1)
  {
  }

  lemma {:induction false} GainersInOrder(pre: seq<int>, post: seq<int>, n: nat)
    requires n <= |pre| == |post|
    ensures ListsGainers(Gainers(pre, post, n), pre, post, n)
  {
    if n > 0 {
      hide ListsGainers;
      GainersInOrder(pre, post, n - 1);
      ListOneMore(Gainers(pre, post, n - 1), pre, post, n - 1);
    } else {
      assert Gainers(pre, post, 0) == [];
    }
  }

  /** Balances are any 64-bit integers; with arrays of different lengths nothing is extracted. */
  method ExtractNativeTransfers(keys: seq<string>, pre: seq<int>, post: seq<int>)
    returns (transfers: seq<NativeTransfer>)
    requires forall i | 0 <= i < |pre| :: Int64(pre[i])
    requires forall i | 0 <= i < |post| :: Int64(post[i])
    ensures transfers == if |pre| == |post| == |keys| then Transfers(keys, pre, post, |keys|) else []
  {
    transfers := [];
    if |pre| == |post| && |pre| == |keys| {
      for i := 0 to |keys|
        invariant transfers == Transfers(keys, pre, post, i)
      {
        var balanceChange := Sub64(post[i], pre[i]);
        if balanceChange > 0 {
          GainersDoNotLose(pre, post, i);
          var j, found := 0, false;
          while j < |keys| && !found
            invariant 0 <= j <= |keys|
            invariant !found ==> transfers == Transfers(keys, pre, post, i)
            invariant !found ==> FirstLoser(pre, post, 0) == FirstLoser(pre, post, j)
            invariant found ==> transfers == Transfers(keys, pre, post, i + 1)
          {
            if i != j && pre[j] > post[j] {
              var fromBalanceChange := Sub64(pre[j], post[j]);
              if fromBalanceChange > 0 {
                transfers := transfers + [NativeTransfer(keys[j], keys[i], balanceChange)];
                found := true;
              }
            }
            j := j + 1;
          }
        }
      }
    }
  }

  // ----- Conservation -----

  function Sum(s: seq<int>, n: nat): int
    requires n <= |s|
  {
    if n == 0 then 0 else Sum(s, n - 1) + s[n - 1]
  }

  function TotalAmount(ts: seq<NativeTransfer>): int {
    if ts == [] then 0 else TotalAmount(ts[..|ts| - 1]) + ts[|ts| - 1].amount
  }

  function TotalGain(pre: seq<int>, post: seq<int>, n: nat): int
    requires n <= |pre| == |post|
  {
    if n == 0 then 0 else TotalGain(pre, post, n - 1) + if post[n - 1] > pre[n - 1] then post[n - 1] - pre[n - 1] else 0
  }

  function TotalLoss(pre: seq<int>, post: seq<int>, n: nat): int
    requires n <= |pre| == |post|
  {
    if n == 0 then 0 else TotalLoss(pre, post, n - 1) + if pre[n - 1] > post[n - 1] then pre[n - 1] - post[n - 1] else 0
  }

  /** The gaining accounts among the first `n`, in order. */
  function Gainers(pre: seq<int>, post: seq<int>, n: nat): (r: seq<nat>)
    requires n <= |pre| == |post|
    ensures forall i | 0 <= i < |r| :: r[i] < n
  {
    if n == 0 then [] else Gainers(pre, post, n - 1) + if post[n - 1] > pre[n - 1] then [n - 1] else []
  }

  lemma {:induction false} GainsAndLosses(pre: seq<int>, post: seq<int>, n: nat)
    requires n <= |pre| == |post|
    ensures Sum(pre, n) + TotalGain(pre, post, n) == Sum(post, n) + TotalLoss(pre, post, n)
    ensures TotalGain(pre, post, n) >= 0 && TotalLoss(pre, post, n) >= 0
    ensures TotalGain(pre, post, n) > 0 <==> Gainers(pre, post, n) != []
  {
    if n > 0 { GainsAndLosses(pre, post, n - 1); }
  }

  /** For real balances the differences do not overflow. */
  lemma LosesIsDecrease(pre: seq<int>, post: seq<int>, j: nat)
    requires j < |pre| == |post| && Balances(pre) && Balances(post)
    ensures Loses(pre, post, j) <==> pre[j] > post[j]
    ensures Gains(pre, post, j) <==> post[j] > pre[j]
    ensures Sub64(pre[j], post[j]) == pre[j] - post[j] && Sub64(post[j], pre[j]) == post[j] - pre[j]
  {
  }

  lemma {:induction false} NoLoserNoLoss(pre: seq<int>, post: seq<int>, n: nat)
    requires n <= |pre| == |post| && Balances(pre) && Balances(post)
    requires forall j | 0 <= j < n :: !Loses(pre, post, j)
    ensures TotalLoss(pre, post, n) == 0
  {
    if n > 0 {
      NoLoserNoLoss(pre, post, n - 1);
      LosesIsDecrease(pre, post, n - 1);
    }
  }

  /** The transfer of one gaining account, with its true gain. */
  function GainTransfer(keys: seq<string>, pre: seq<int>, post: seq<int>, payer: nat, i: nat): NativeTransfer
    requires payer < |keys| && i < |keys| == |pre| == |post|
  {
    NativeTransfer(keys[payer], keys[i], post[i] - pre[i])
  }

  lemma TotalAmountSnoc(ts: seq<NativeTransfer>, t: NativeTransfer)
    ensures TotalAmount(ts + [t]) == TotalAmount(ts) + t.amount
  {
    assert (ts + [t])[..|ts|] == ts;
  }

  lemma TransfersStep(keys: seq<string>, pre: seq<int>, post: seq<int>, n: nat, payer: nat)
    requires n < |keys| == |pre| == |post| && Balances(pre) && Balances(post)
    requires FirstLoser(pre, post, 0) == Some(payer)
    ensures Transfers(keys, pre, post, n + 1) ==
            Transfers(keys, pre, post, n) + if post[n] > pre[n] then [GainTransfer(keys, pre, post, payer, n)] else []
  {
    LosesIsDecrease(pre, post, n);
    hide Balances, Loses;
  }

  /** With a payer, the transfers are the gaining accounts one for one, each with its true gain. */
  lemma {:induction false} TransfersAreGains(keys: seq<string>, pre: seq<int>, post: seq<int>, n: nat, payer: nat)
    requires n <= |keys| == |pre| == |post| && Balances(pre) && Balances(post)
    requires FirstLoser(pre, post, 0) == Some(payer)
    ensures var ts, gainers := Transfers(keys, pre, post, n), Gainers(pre, post, n);
            |ts| == |gainers| &&
            forall i | 0 <= i < |ts| :: ts[i] == GainTransfer(keys, pre, post, payer, gainers[i])
  {
    hide FirstLoser, Balances, Gains;
    if n > 0 {
      TransfersAreGains(keys, pre, post, n - 1, payer);
      TransfersStep(keys, pre, post, n - 1, payer);
    }
  }

  lemma NothingYet(keys: seq<string>, pre: seq<int>, post: seq<int>)
    requires |keys| == |pre| == |post|
    ensures TotalAmount(Transfers(keys, pre, post, 0)) == 0
  {
  }

  lemma {:induction false} TransfersTotal(keys: seq<string>, pre: seq<int>, post: seq<int>, n: nat, payer: nat)
    requires n <= |keys| == |pre| == |post| && Balances(pre) && Balances(post)
    requires FirstLoser(pre, post, 0) == Some(payer)
    ensures TotalAmount(Transfers(keys, pre, post, n)) == TotalGain(pre, post, n)
  {
    hide FirstLoser, Balances, Gains, TotalAmount, Transfers;
    if n == 0 {
      NothingYet(keys, pre, post);
    } else {
      TransfersTotal(keys, pre, post, n - 1, payer);
      TransfersStep(keys, pre, post, n - 1, payer);
      var before := Transfers(keys, pre, post, n - 1);
      TotalAmountSnoc(before, GainTransfer(keys, pre, post, payer, n - 1));
      assert before + [] == before;
    }
  }

  /** If the balances before equal the balances after plus a fee, every gaining account receives exactly
      one transfer, of its true gain, and the amounts plus the fee are everything the losing accounts lost. */
  lemma NativeConservation(keys: seq<string>, pre: seq<int>, post: seq<int>, fee: int)
    requires |keys| == |pre| == |post| && Balances(pre) && Balances(post)
    requires fee >= 0 && Sum(pre, |pre|) == Sum(post, |post|) + fee
    ensures var ts, gainers := Transfers(keys, pre, post, |keys|), Gainers(pre, post, |pre|);
            && |ts| == |gainers|
            && (forall i | 0 <= i < |ts| ::
                  ts[i].toUserAccount == keys[gainers[i]] && ts[i].amount == post[gainers[i]] - pre[gainers[i]])
            && TotalAmount(ts) + fee == TotalLoss(pre, post, |pre|)
  {
    GainsAndLosses(pre, post, |pre|);
    if FirstLoser(pre, post, 0).Some? {
      TransfersAreGains(keys, pre, post, |keys|, FirstLoser(pre, post, 0).value);
      TransfersTotal(keys, pre, post, |keys|, FirstLoser(pre, post, 0).value);
    } else {
      NoLoserNoLoss(pre, post, |pre|);
      NoPayerNoTransfers(keys, pre, post, |keys|);
    }
  }

  lemma {:induction false} NoPayerNoTransfers(keys: seq<string>, pre: seq<int>, post: seq<int>, n: nat)
    requires n <= |keys| == |pre| == |post| && FirstLoser(pre, post, 0) == None
    ensures Transfers(keys, pre, post, n) == []
  {
    if n > 0 { NoPayerNoTransfers(keys, pre, post, n - 1); }
  }

  lemma {:induction false} LossesFrom(pre: seq<int>, post: seq<int>, p: nat, n: nat)
    requires p < n <= |pre| == |post| && Balances(pre) && Balances(post)
    requires forall j | 0 <= j < p :: !Loses(pre, post, j)
    requires Loses(pre, post, p)
    ensures TotalLoss(pre, post, n) >= pre[p] - post[p]
    ensures TotalLoss(pre, post, n) == pre[p] - post[p] <==> forall j | p < j < n :: !Loses(pre, post, j)
  {
    LosesIsDecrease(pre, post, n - 1);
    if n == p + 1 {
      NoLoserNoLoss(pre, post, p);
    } else {
      LossesFrom(pre, post, p, n - 1);
    }
  }

  /** Every transfer names the same payer, the first account that lost balance; and it has lost exactly the
      reported total plus the fee if and only if no other account lost anything. */
  lemma PayerPaidIffAlone(keys: seq<string>, pre: seq<int>, post: seq<int>, fee: int) returns (payer: nat)
    requires |keys| == |pre| == |post| && Balances(pre) && Balances(post)
    requires fee >= 0 && Sum(pre, |pre|) == Sum(post, |post|) + fee
    requires exists j | 0 <= j < |pre| :: pre[j] > post[j]
    ensures payer < |keys| && pre[payer] > post[payer] && forall j | 0 <= j < payer :: pre[j] <= post[j]
    ensures forall t | t in Transfers(keys, pre, post, |keys|) :: t.fromUserAccount == keys[payer]
    ensures TotalAmount(Transfers(keys, pre, post, |keys|)) + fee == pre[payer] - post[payer] <==>
            forall j | 0 <= j < |pre| && j != payer :: pre[j] <= post[j]
  {
    forall j | 0 <= j < |pre| ensures Loses(pre, post, j) <==> pre[j] > post[j] { LosesIsDecrease(pre, post, j); }
    payer := FirstLoser(pre, post, 0).value;
    TransfersAreGains(keys, pre, post, |keys|, payer);
    NativeConservation(keys, pre, post, fee);
    LossesFrom(pre, post, payer, |pre|);
  }
}

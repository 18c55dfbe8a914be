/** The two retry loops of the exchange adapter: the batched stream of
    `watch_tickers` and the per-symbol stream of `_watch_single_ticker`. Each loop
    awaits the next receive, hands every received ticker to the callback, and on any
    exception (a failed receive, or the callback raising) logs, sleeps and tries
    again. The loops never stop on their own; here they run over a finite sequence
    of receive outcomes, and an oracle says which callback invocations raise. */
module TickerStreams {
  import opened Seqs

  /** The outcome of one batched receive: the tickers of the returned dictionary, in
      its order, or an exception. */
  datatype Receive<T> = Batch(tickers: seq<T>) | ReceiveError

  /** The outcome of one single-ticker receive. */
  datatype SingleReceive<T> = Tick(ticker: T) | SingleError

  /** What a loop has done so far: the tickers passed to the callback, in
      invocation order, and the number of back-off sleeps. */
  datatype Progress<T> = Progress(calls: seq<T>, sleeps: nat)

  /** How many tickers of `ts`, delivered from invocation number `n` on, return from
      the callback normally before the first one that raises. */
  function FirstRaise<T>(ts: seq<T>, n: nat, raises: nat -> bool): (k: nat)
    ensures k <= |ts|
    ensures forall m :: n <= m < n + k ==> !raises(m)
    ensures k < |ts| ==> raises(n + k)
  {
    if ts == [] || raises(n) then 0 else 1 + FirstRaise(ts[1..], n + 1, raises)
  }

  /** The numbers of normal returns the two properties above allow is unique. */
  lemma FirstRaiseUnique<T>(ts: seq<T>, n: nat, raises: nat -> bool, k: nat)
    requires k <= |ts|
    requires forall m :: n <= m < n + k ==> !raises(m)
    requires k < |ts| ==> raises(n + k)
    ensures FirstRaise(ts, n, raises) == k
  {
    var f := FirstRaise(ts, n, raises);
    var atF: nat, atK: nat := n + f, n + k;
    assert f < k ==> !raises(atF);
    assert f > k ==> !raises(atK);
  }

  /** One turn of the loop body. A receive error costs one sleep. A batch has its
      tickers passed to the callback in order; when an invocation raises, the rest
      of the batch is skipped and the loop sleeps once. */
  function Step<T>(p: Progress<T>, r: Receive<T>, raises: nat -> bool): Progress<T>
  {
    match r
    case ReceiveError => Progress(p.calls, p.sleeps + 1)
    case Batch(ts) =>
      var k := FirstRaise(ts, |p.calls|, raises);
      if k == |ts| then Progress(p.calls + ts, p.sleeps)
      else Progress(p.calls + ts[..k + 1], p.sleeps + 1)
  }

  /** The loop run over the receive outcomes `attempts`, one turn each. */
  function Run<T>(attempts: seq<Receive<T>>, raises: nat -> bool): (p: Progress<T>)
    ensures p.sleeps <= |attempts|
    ensures |p.calls| <= |AllTickers(attempts)|
  {
    if attempts == [] then Progress([], 0)
    else
      var n := |attempts| - 1;
      var p := Run(attempts[..n], raises);
      assert attempts[..n][..|attempts[..n]|] == attempts[..n];
      Step(p, attempts[n], raises)
  }

  /** Every ticker of every batch, in order. */
  function AllTickers<T>(attempts: seq<Receive<T>>): seq<T>
  {
    if attempts == [] then []
    else
      var n := |attempts| - 1;
      AllTickers(attempts[..n]) + (if attempts[n].Batch? then attempts[n].tickers else [])
  }

  /** The number of failed receives. */
  function Errors<T>(attempts: seq<Receive<T>>): nat
  {
    if attempts == [] then 0
    else
      var n := |attempts| - 1;
      Errors(attempts[..n]) + (if attempts[n].ReceiveError? then 1 else 0)
  }

  /** With a callback that never raises, every received ticker reaches the callback
      exactly once, in receive order, and the loop sleeps once per failed receive:
      an error never ends the stream. */
  lemma {:induction false} RunNoRaise<T>(attempts: seq<Receive<T>>, raises: nat -> bool)
    requires forall m :: !raises(m)
    ensures Run(attempts, raises).calls == AllTickers(attempts)
    ensures Run(attempts, raises).sleeps == Errors(attempts)
  {
    if attempts != [] {
      var n := |attempts| - 1;
      RunNoRaise(attempts[..n], raises);
      if attempts[n].Batch? {
        var ts := attempts[n].tickers;
        FirstRaiseUnique(ts, |Run(attempts[..n], raises).calls|, raises, |ts|);
      }
    }
  }

  /** The number of batches in which a callback invocation raised. */
  function RaisingBatches<T>(attempts: seq<Receive<T>>, raises: nat -> bool): nat
  {
    if attempts == [] then 0
    else
      var n := |attempts| - 1;
      var p := Run(attempts[..n], raises);
      RaisingBatches(attempts[..n], raises)
        + (if attempts[n].Batch? && FirstRaise(attempts[n].tickers, |p.calls|, raises) < |attempts[n].tickers|
           then 1 else 0)
  }

  /** With any callback, the tickers passed to it are received tickers, in receive
      order; the loop sleeps once per failed receive and once per batch cut short by
      a raising invocation; and when no batch is cut short, every received ticker is
      passed on. */
  lemma {:induction false} RunDelivers<T>(attempts: seq<Receive<T>>, raises: nat -> bool)
    ensures IsSubsequence(Run(attempts, raises).calls, AllTickers(attempts))
    ensures Run(attempts, raises).sleeps == Errors(attempts) + RaisingBatches(attempts, raises)
    ensures RaisingBatches(attempts, raises) == 0 ==> Run(attempts, raises).calls == AllTickers(attempts)
  {
    if attempts == [] {
      SubsequenceRefl(AllTickers(attempts));
    } else {
      var n := |attempts| - 1;
      var init := attempts[..n];
      RunDelivers(init, raises);
      assert init[..|init|] == init;
      StepDelivers(Run(init, raises), AllTickers(init), attempts[n], raises);
    }
  }

  /** One turn of the loop: what it passes to the callback extends a subsequence of
      the tickers received so far to one of those received now, it sleeps on a
      failed receive or a batch cut short, and a batch not cut short is passed on
      whole. */
  lemma StepDelivers<T>(p: Progress<T>, received: seq<T>, r: Receive<T>, raises: nat -> bool)
    requires IsSubsequence(p.calls, received)
    ensures var q := Step(p, r, raises);
            var cut := r.Batch? && FirstRaise(r.tickers, |p.calls|, raises) < |r.tickers|;
            var now := received + (if r.Batch? then r.tickers else []);
            && IsSubsequence(q.calls, now)
            && q.sleeps == p.sleeps + (if r.ReceiveError? then 1 else 0) + (if cut then 1 else 0)
            && (!cut && p.calls == received ==> q.calls == now)
  {
    match r
    case ReceiveError =>
      assert received + [] == received;
    case Batch(ts) =>
      var k := FirstRaise(ts, |p.calls|, raises);
      if k == |ts| {
        SubsequenceRefl(ts);
        SubsequenceConcat(p.calls, received, ts, ts);
      } else {
        assert ts[..k + 1] == Prefix(ts, k + 1);
        PrefixIsSubsequence(ts, k + 1);
        SubsequenceConcat(p.calls, received, ts[..k + 1], ts);
      }
  }

  /** A callback that raises on the second ticker of a batch of three loses the
      third, and the loop sleeps once. */
  lemma RaisingCallbackSkipsRest()
    ensures Run([Batch([1, 2, 3])], m => m == 1) == Progress([1, 2], 1)
  {
    var raises: nat -> bool := m => m == 1;
    var a: seq<Receive<int>> := [Batch([1, 2, 3])];
    assert a[..0] == [];
    assert FirstRaise([1, 2, 3], 0, raises) == 1 by {
      FirstRaiseUnique([1, 2, 3], 0, raises, 1);
    }
    assert [1, 2, 3][..2] == [1, 2];
  }

  /** A failed receive does not protect what follows it from a raising callback: the
      second ticker received after the error is lost when the first invocation raises. */
  lemma RaisingCallbackAfterError()
    ensures Run([ReceiveError, Batch([1, 2])], m => m == 0) == Progress([1], 2)
  {
    var raises: nat -> bool := m => m == 0;
    var a: seq<Receive<int>> := [ReceiveError, Batch([1, 2])];
    assert a[..1] == [ReceiveError] && a[..1][..0] == [];
    assert FirstRaise([1, 2], 0, raises) == 0;
    assert [1, 2][..1] == [1];
  }

  lemma {:induction false} AllTickersAppend<T>(a: seq<Receive<T>>, b: seq<Receive<T>>)
    ensures AllTickers(a + b) == AllTickers(a) + AllTickers(b)
  {
    if b == [] {
      assert a + b == a;
    } else {
      var n := |b| - 1;
      assert (a + b)[..|a| + n] == a + b[..n];
      AllTickersAppend(a, b[..n]);
    }
  }

  /** A failed receive between two stretches of the stream loses nothing: with a
      callback that never raises, the tickers received after the error are still
      delivered, right after those received before it. */
  lemma ErrorKeepsStreaming<T>(a: seq<Receive<T>>, b: seq<Receive<T>>, raises: nat -> bool)
    requires forall m :: !raises(m)
    ensures Run(a + [ReceiveError] + b, raises).calls == Run(a, raises).calls + AllTickers(b)
  {
    RunNoRaise(a + [ReceiveError] + b, raises);
    RunNoRaise(a, raises);
    AllTickersSkipError(a, b);
  }

  /** For any callback, a failed receive costs one sleep and nothing else: the run
      with it passes the same tickers to the callback as the run without it. */
  lemma {:induction false} ErrorCostsOneSleep<T>(a: seq<Receive<T>>, b: seq<Receive<T>>, raises: nat -> bool)
    ensures Run(a + [ReceiveError] + b, raises) ==
              Progress(Run(a + b, raises).calls, Run(a + b, raises).sleeps + 1)
    decreases |b|
  {
    var e: seq<Receive<T>> := [ReceiveError];
    if b == [] {
      assert a + e + b == a + e && a + b == a;
      RunLast(a + e, raises);
      assert (a + e)[..|a|] == a;
    } else {
      var n := |b| - 1;
      var init := b[..n];
      ErrorCostsOneSleep(a, init, raises);
      var with, without := a + e + b, a + b;
      assert with[..|with| - 1] == a + e + init && with[|with| - 1] == b[n];
      assert without[..|without| - 1] == a + init && without[|without| - 1] == b[n];
      RunLast(with, raises);
      RunLast(without, raises);
      StepOneMoreSleep(Run(a + init, raises), b[n], raises);
    }
  }

  /** A run ends with the turn over its last receive. */
  lemma RunLast<T>(attempts: seq<Receive<T>>, raises: nat -> bool)
    requires attempts != []
    ensures Run(attempts, raises) ==
              Step(Run(attempts[..|attempts| - 1], raises), attempts[|attempts| - 1], raises)
  {
  }

  /** A turn does not depend on the sleeps before it. */
  lemma StepOneMoreSleep<T>(p: Progress<T>, r: Receive<T>, raises: nat -> bool)
    ensures Step(Progress(p.calls, p.sleeps + 1), r, raises) ==
              Progress(Step(p, r, raises).calls, Step(p, r, raises).sleeps + 1)
  {
  }

  lemma AllTickersSkipError<T>(a: seq<Receive<T>>, b: seq<Receive<T>>)
    ensures AllTickers(a + [ReceiveError] + b) == AllTickers(a) + AllTickers(b)
  {
    var e: seq<Receive<T>> := [ReceiveError];
    assert AllTickers(e) == [] by {
      assert e[..0] == [];
    }
    AllTickersAppend(a, e);
    AllTickersAppend(a + e, b);
  }

  /** Later turns only add: the callback invocations and sleeps of a run are a prefix
      of those of any longer run. */
  lemma {:induction false} RunExtends<T>(a: seq<Receive<T>>, b: seq<Receive<T>>, raises: nat -> bool)
    ensures Run(a, raises).calls <= Run(a + b, raises).calls
    ensures Run(a, raises).sleeps <= Run(a + b, raises).sleeps
  {
    if b == [] {
      assert a + b == a;
    } else {
      var n := |b| - 1;
      var ab := a + b;
      assert ab[..|ab| - 1] == a + b[..n];
      RunExtends(a, b[..n], raises);
      assert Run(ab, raises) == Step(Run(a + b[..n], raises), ab[|ab| - 1], raises);
    }
  }

  /** The inner `for` loop over one received batch, the first callback invocation
      being number `n`: returns the tickers passed to the callback and whether an
      invocation raised, which ends the batch. */
  method DeliverBatch<T>(ts: seq<T>, n: nat, raises: nat -> bool) returns (delivered: seq<T>, raised: bool)
    ensures raised <==> FirstRaise(ts, n, raises) < |ts|
    ensures delivered == if raised then ts[..FirstRaise(ts, n, raises) + 1] else ts
  {
    delivered, raised := [], false;
    var j := 0;
    while j < |ts| && !raised
      invariant j <= |ts|
      invariant delivered == ts[..j]
      invariant !raised ==> forall m :: n <= m < n + j ==> !raises(m)
      invariant raised ==> 0 < j && raises(n + j - 1)
      invariant raised ==> forall m :: n <= m < n + j - 1 ==> !raises(m)
    {
      delivered := delivered + [ts[j]];
      raised := raises(n + j);
      j := j + 1;
    }
    if raised {
      FirstRaiseUnique(ts, n, raises, j - 1);
    } else {
      FirstRaiseUnique(ts, n, raises, j);
      assert ts[..j] == ts;
    }
  }

  /** A turn over a batch passes on the tickers up to the first raising invocation,
      and sleeps once when there is one. */
  lemma StepOfBatch<T>(p: Progress<T>, ts: seq<T>, raises: nat -> bool)
    ensures var k := FirstRaise(ts, |p.calls|, raises);
            Step(p, Batch(ts), raises) ==
              if k < |ts| then Progress(p.calls + ts[..k + 1], p.sleeps + 1)
              else Progress(p.calls + ts, p.sleeps)
  {
  }

  /** `watch_tickers`'s `while True` loop over the receive outcomes `attempts`;
      returns the tickers passed to the callback and the number of sleeps. */
  method StreamBatches<T>(attempts: seq<Receive<T>>, raises: nat -> bool) returns (calls: seq<T>, sleeps: nat)
    ensures Progress(calls, sleeps) == Run(attempts, raises)
  {
    calls, sleeps := [], 0;
    var i := 0;
    while i < |attempts|
      invariant i <= |attempts|
      invariant Progress(calls, sleeps) == Run(attempts[..i], raises)
    {
      ghost var p := Progress(calls, sleeps);
      match attempts[i] {
      case ReceiveError =>
        sleeps := sleeps + 1;
      case Batch(ts) =>
        var delivered, raised := DeliverBatch(ts, |calls|, raises);
        StepOfBatch(p, ts, raises);
        calls := calls + delivered;
        if raised {
          sleeps := sleeps + 1;
        }
      }
      assert Progress(calls, sleeps) == Step(p, attempts[i], raises);
      RunSnoc(attempts, i, raises);
      i := i + 1;
    }
    assert attempts[..i] == attempts;
  }

  /** A single-ticker receive seen as a batch of one. */
  function AsBatches<T>(attempts: seq<SingleReceive<T>>): (r: seq<Receive<T>>)
    ensures |r| == |attempts|
    ensures forall i :: 0 <= i < |r| ==>
              r[i] == if attempts[i].Tick? then Batch([attempts[i].ticker]) else ReceiveError
  {
    seq(|attempts|, i requires 0 <= i < |attempts| =>
      if attempts[i].Tick? then Batch([attempts[i].ticker]) else ReceiveError)
  }

  /** The tickers of the successful single receives, in order. */
  function Ticks<T>(attempts: seq<SingleReceive<T>>): seq<T>
  {
    if attempts == [] then []
    else
      var n := |attempts| - 1;
      Ticks(attempts[..n]) + (if attempts[n].Tick? then [attempts[n].ticker] else [])
  }

  /** The single-ticker loop passes every received ticker to the callback once, in
      order, whatever the callback raises: a raising invocation is the last of its
      batch of one, so it cuts nothing short. */
  lemma {:induction false} SingleDeliversAll<T>(attempts: seq<SingleReceive<T>>, raises: nat -> bool)
    ensures Run(AsBatches(attempts), raises).calls == Ticks(attempts)
  {
    if attempts != [] {
      var n := |attempts| - 1;
      var b := AsBatches(attempts);
      assert b[..n] == AsBatches(attempts[..n]);
      SingleDeliversAll(attempts[..n], raises);
      assert b[..n][..|b[..n]|] == b[..n];
      if attempts[n].Tick? {
        var t := attempts[n].ticker;
        assert [t][..1] == [t];
      }
    }
  }

  /** The tickers of the batches of one are those of the successful receives. */
  lemma {:induction false} TicksAsBatches<T>(attempts: seq<SingleReceive<T>>)
    ensures AllTickers(AsBatches(attempts)) == Ticks(attempts)
  {
    if attempts != [] {
      var n := |attempts| - 1;
      assert AsBatches(attempts)[..n] == AsBatches(attempts[..n]);
      TicksAsBatches(attempts[..n]);
    }
  }

  /** A turn over a batch of one passes its ticker on and sleeps exactly when that
      invocation raises. */
  lemma StepOfOne<T>(p: Progress<T>, t: T, raises: nat -> bool)
    ensures Step(p, Batch([t]), raises) ==
              Progress(p.calls + [t], p.sleeps + if raises(|p.calls|) then 1 else 0)
  {
    if raises(|p.calls|) {
      FirstRaiseUnique([t], |p.calls|, raises, 0);
      assert [t][..1] == [t];
    } else {
      FirstRaiseUnique([t], |p.calls|, raises, 1);
    }
  }

  /** Running one more receive is one more turn. */
  lemma RunSnoc<T>(attempts: seq<Receive<T>>, i: nat, raises: nat -> bool)
    requires i < |attempts|
    ensures Run(attempts[..i + 1], raises) == Step(Run(attempts[..i], raises), attempts[i], raises)
  {
    assert attempts[..i + 1][..i] == attempts[..i];
  }

  /** `_watch_single_ticker`'s `while True` loop over the receive outcomes `attempts`;
      it behaves as the batched loop over batches of one. */
  method StreamSingle<T>(attempts: seq<SingleReceive<T>>, raises: nat -> bool) returns (calls: seq<T>, sleeps: nat)
    ensures Progress(calls, sleeps) == Run(AsBatches(attempts), raises)
  {
    calls, sleeps := [], 0;
    ghost var batches := AsBatches(attempts);
    var i := 0;
    while i < |attempts|
      invariant i <= |attempts|
      invariant Progress(calls, sleeps) == Run(batches[..i], raises)
    {
      ghost var p := Progress(calls, sleeps);
      var n := |calls|;
      match attempts[i] {
      case SingleError =>
        assert batches[i] == ReceiveError;
        sleeps := sleeps + 1;
      case Tick(t) =>
        assert batches[i] == Batch([t]);
        calls := calls + [t];
        StepOfOne(p, t, raises);
        if raises(n) {
          sleeps := sleeps + 1;
        }
      }
      assert Progress(calls, sleeps) == Step(p, batches[i], raises);
      RunSnoc(batches, i, raises);
      i := i + 1;
    }
    assert batches[..i] == batches;
  }
}

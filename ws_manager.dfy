/** The registry of live dashboard sockets behind the market feed route: a list of
    connections that grows on accept, shrinks on disconnect, and drops the sockets
    whose send failed after each broadcast. A send is reported by an oracle over its
    position in the broadcast, so the socket layer and the message encoding are
    outside the model. */
module WsManager {
  import opened Seqs

  /** A client socket. Sockets are compared by identity, as Python compares them. */
  class WebSocket {
  }

  /** The members of `s` whose send, the `i`-th of the broadcast for `s[i]`, failed,
      in list order. */
  function Dead<T>(s: seq<T>, sendOk: nat -> bool): (r: seq<T>)
    ensures |r| <= |s|
    ensures forall i :: 0 <= i < |r| ==> r[i] in s
  {
    if s == [] then []
    else
      var n := |s| - 1;
      Dead(s[..n], sendOk) + (if sendOk(n) then [] else [s[n]])
  }

  /** The members of `s` whose send succeeded, in list order. */
  function Alive<T>(s: seq<T>, sendOk: nat -> bool): (r: seq<T>)
    ensures |r| <= |s|
    ensures forall i :: 0 <= i < |r| ==> r[i] in s
  {
    if s == [] then []
    else
      var n := |s| - 1;
      Alive(s[..n], sendOk) + (if sendOk(n) then [s[n]] else [])
  }

  /** The failed connections are collected in list order, every one of them. */
  lemma {:induction false} DeadSelect<T>(s: seq<T>, sendOk: nat -> bool)
    ensures IsSubsequence(Dead(s, sendOk), s)
    ensures forall i :: 0 <= i < |s| && !sendOk(i) ==> s[i] in Dead(s, sendOk)
  {
    if s != [] {
      var n := |s| - 1;
      var t, d := s[..n], Dead(s[..n], sendOk);
      DeadSelect(t, sendOk);
      assert s == t + [s[n]];
      SubsequenceSnoc(d, t, s[n]);
      if sendOk(n) {
        assert Dead(s, sendOk) == d;
      } else {
        assert Dead(s, sendOk) == d + [s[n]];
      }
      assert forall i :: 0 <= i < n ==> t[i] == s[i];
    }
  }

  /** The successful connections are kept in list order, every one of them. */
  lemma {:induction false} AliveSelect<T>(s: seq<T>, sendOk: nat -> bool)
    ensures IsSubsequence(Alive(s, sendOk), s)
    ensures forall i :: 0 <= i < |s| && sendOk(i) ==> s[i] in Alive(s, sendOk)
  {
    if s != [] {
      var n := |s| - 1;
      var t, a := s[..n], Alive(s[..n], sendOk);
      AliveSelect(t, sendOk);
      assert s == t + [s[n]];
      SubsequenceSnoc(a, t, s[n]);
      if sendOk(n) {
        assert Alive(s, sendOk) == a + [s[n]];
      } else {
        assert Alive(s, sendOk) == a;
      }
      assert forall i :: 0 <= i < n ==> t[i] == s[i];
    }
  }

  /** `s` after `remove` of each of `xs` in turn, each call dropping the first
      occurrence. */
  function RemoveEach<T(==)>(s: seq<T>, xs: seq<T>): seq<T>
  {
    if xs == [] then s
    else
      var n := |xs| - 1;
      RemoveFirst(RemoveEach(s, xs[..n]), xs[n])
  }

  /** Exactly one copy of each removed element goes, when there is one. */
  lemma {:induction false} RemoveEachCounts<T>(s: seq<T>, xs: seq<T>)
    ensures multiset(RemoveEach(s, xs)) == multiset(s) - multiset(xs)
  {
    if xs != [] {
      var n := |xs| - 1;
      RemoveEachCounts(s, xs[..n]);
      RemoveFirstCounts(RemoveEach(s, xs[..n]), xs[n]);
      assert xs == xs[..n] + [xs[n]];
      MinusStep(multiset(s), multiset(xs[..n]), xs[n]);
    }
  }

  lemma MinusStep<T>(a: multiset<T>, b: multiset<T>, x: T)
    ensures a - b - multiset{x} == a - (b + multiset{x})
  {
    forall y
      ensures (a - b - multiset{x})[y] == (a - (b + multiset{x}))[y]
    {
    }
  }

  /** The list after one broadcast: the failed sends removed afterwards. */
  function AfterBroadcast<T(==)>(s: seq<T>, sendOk: nat -> bool): seq<T>
  {
    RemoveEach(s, Dead(s, sendOk))
  }

  /** The list after a broadcast per round, the `k`-th round's sends going by
      `rounds[k]`. */
  function AfterRounds<T(==)>(s: seq<T>, rounds: seq<nat -> bool>): seq<T>
  {
    if rounds == [] then s
    else
      var n := |rounds| - 1;
      AfterBroadcast(AfterRounds(s, rounds[..n]), rounds[n])
  }

  /** Every member goes to exactly one of the two lists. */
  lemma {:induction false} DeadAliveSplit<T>(s: seq<T>, sendOk: nat -> bool)
    ensures multiset(Dead(s, sendOk)) + multiset(Alive(s, sendOk)) == multiset(s)
  {
    if s != [] {
      var n := |s| - 1;
      DeadAliveSplit(s[..n], sendOk);
      assert s == s[..n] + [s[n]];
    }
  }

  /** Whatever sockets the list holds, a broadcast keeps exactly as many copies of
      each socket as had successful sends. */
  lemma BroadcastCounts<T>(s: seq<T>, sendOk: nat -> bool)
    ensures multiset(AfterBroadcast(s, sendOk)) == multiset(Alive(s, sendOk))
  {
    DeadAliveSplit(s, sendOk);
    RemoveEachCounts(s, Dead(s, sendOk));
  }

  /** `remove` of an element other than the last leaves the last in place. */
  lemma {:induction false} RemoveFirstBeforeLast<T>(s: seq<T>, x: T, y: T)
    requires y != x
    ensures RemoveFirst(s + [x], y) == RemoveFirst(s, y) + [x]
  {
    if s != [] {
      assert (s + [x])[1..] == s[1..] + [x];
      RemoveFirstBeforeLast(s[1..], x, y);
    }
  }

  /** `remove` of a last element that occurs nowhere else drops exactly it. */
  lemma {:induction false} RemoveFirstLast<T>(s: seq<T>, x: T)
    requires x !in s
    ensures RemoveFirst(s + [x], x) == s
  {
    if s != [] {
      assert (s + [x])[1..] == s[1..] + [x];
      assert x !in s[1..];
      RemoveFirstLast(s[1..], x);
    }
  }

  /** Removing elements other than `x` from a list ending in `x` leaves that last
      element in place. */
  lemma {:induction false} RemoveEachBeforeLast<T>(s: seq<T>, xs: seq<T>, x: T)
    requires x !in xs
    ensures RemoveEach(s + [x], xs) == RemoveEach(s, xs) + [x]
  {
    if xs != [] {
      var n := |xs| - 1;
      assert xs == xs[..n] + [xs[n]];
      RemoveEachBeforeLast(s, xs[..n], x);
      RemoveFirstBeforeLast(RemoveEach(s, xs[..n]), x, xs[n]);
    }
  }

  /** With no socket registered twice, a broadcast leaves exactly the sockets whose
      send succeeded, in their original order. */
  lemma {:induction false} BroadcastKeepsAlive<T>(s: seq<T>, sendOk: nat -> bool)
    requires Distinct(s)
    ensures AfterBroadcast(s, sendOk) == Alive(s, sendOk)
  {
    if s != [] {
      var n := |s| - 1;
      var t := s[..n];
      DistinctLast(s);
      BroadcastKeepsAlive(t, sendOk);
      assert s == t + [s[n]];
      BroadcastAppend(t, s[n], sendOk);
    }
  }

  /** A socket appended behind the others, and not among them, leaves the outcome
      for the others as it was. */
  lemma BroadcastAppend<T>(t: seq<T>, x: T, sendOk: nat -> bool)
    requires x !in t
    requires AfterBroadcast(t, sendOk) == Alive(t, sendOk)
    ensures AfterBroadcast(t + [x], sendOk) == Alive(t + [x], sendOk)
  {
    var s := t + [x];
    assert s[..|t|] == t;
    var d := Dead(t, sendOk);
    assert x !in d;
    RemoveEachBeforeLast(t, d, x);
    if sendOk(|t|) {
      assert Dead(s, sendOk) == d;
      assert Alive(s, sendOk) == Alive(t, sendOk) + [x];
    } else {
      var d' := d + [x];
      assert Dead(s, sendOk) == d';
      assert d'[..|d|] == d;
      assert RemoveEach(s, d') == RemoveFirst(Alive(t, sendOk) + [x], x);
      assert x !in Alive(t, sendOk);
      RemoveFirstLast(Alive(t, sendOk), x);
      assert Alive(s, sendOk) == Alive(t, sendOk);
    }
  }

  class ConnectionManager {
    var activeConnections: seq<WebSocket>

    /** `ConnectionManager()`: no connections. */
    constructor ()
      ensures activeConnections == []
    {
      activeConnections := [];
    }

    /** `connect(websocket)`: the socket is accepted and then appended. When the
        accept raises, which `acceptOk` reports, the exception leaves the list as it
        was. */
    method Connect(ws: WebSocket, acceptOk: bool) returns (raised: bool)
      modifies this
      ensures raised == !acceptOk
      ensures activeConnections == if acceptOk then old(activeConnections) + [ws] else old(activeConnections)
    {
      if !acceptOk {
        return true;
      }
      activeConnections := activeConnections + [ws];
      raised := false;
    }

    /** `disconnect(websocket)`: the first occurrence removed when it is there, and
        nothing done when it is not. */
    method Disconnect(ws: WebSocket)
      modifies this
      ensures activeConnections == RemoveFirst(old(activeConnections), ws)
    {
      if ws in activeConnections {
        var i := IndexOf(activeConnections, ws);
        RemoveFirstAt(activeConnections, ws, i);
        activeConnections := activeConnections[..i] + activeConnections[i + 1..];
      } else {
        RemoveFirstAbsent(activeConnections, ws);
      }
    }

    /** `broadcast(message)`: one send per connection, in list order, with the list
        left alone while sending; then every connection whose send failed goes
        through `disconnect`. Returns the connections sent to. */
    method Broadcast(sendOk: nat -> bool) returns (attempted: seq<WebSocket>)
      modifies this
      ensures attempted == old(activeConnections)
      ensures activeConnections == AfterBroadcast(old(activeConnections), sendOk)
    {
      attempted := [];
      var dead: seq<WebSocket> := [];
      var i := 0;
      while i < |activeConnections|
        invariant i <= |activeConnections|
        invariant activeConnections == old(activeConnections)
        invariant attempted == activeConnections[..i]
        invariant dead == Dead(activeConnections[..i], sendOk)
      {
        var connection := activeConnections[i];
        attempted := attempted + [connection];
        if !sendOk(i) {
          dead := dead + [connection];
        }
        assert activeConnections[..i + 1][..i] == activeConnections[..i];
        i := i + 1;
      }
      assert activeConnections[..i] == activeConnections;
      var j := 0;
      while j < |dead|
        invariant j <= |dead|
        invariant activeConnections == RemoveEach(old(activeConnections), dead[..j])
      {
        assert dead[..j + 1][..j] == dead[..j];
        Disconnect(dead[j]);
        j := j + 1;
      }
      assert dead[..j] == dead;
    }

    /** The `/ws/market` handler for socket `ws`: connect, then one broadcast per
        round, until an exception ends the loop and the socket is disconnected. An
        accept that raises goes straight to the disconnect. */
    method ServeMarket(ws: WebSocket, acceptOk: bool, rounds: seq<nat -> bool>)
      modifies this
      ensures activeConnections ==
                RemoveFirst(if acceptOk then AfterRounds(old(activeConnections) + [ws], rounds)
                            else old(activeConnections), ws)
    {
      var raised := Connect(ws, acceptOk);
      if !raised {
        var i := 0;
        while i < |rounds|
          invariant i <= |rounds|
          invariant activeConnections == AfterRounds(old(activeConnections) + [ws], rounds[..i])
        {
          assert rounds[..i + 1][..i] == rounds[..i];
          var _ := Broadcast(rounds[i]);
          i := i + 1;
        }
        assert rounds[..i] == rounds;
      }
      Disconnect(ws);
    }
  }

  /** A broadcast never adds: the list after any number of rounds holds no socket
      more often than before. */
  lemma {:induction false} RoundsOnlyShrink<T>(s: seq<T>, rounds: seq<nat -> bool>)
    ensures multiset(AfterRounds(s, rounds)) <= multiset(s)
  {
    if rounds != [] {
      var n := |rounds| - 1;
      RoundsOnlyShrink(s, rounds[..n]);
      var before := AfterRounds(s, rounds[..n]);
      BroadcastCounts(before, rounds[n]);
      DeadAliveSplit(before, rounds[n]);
    }
  }

  /** Serving a socket leaves no trace of it: the registry afterwards holds no
      connection more often than before, and a socket that was not registered
      before is not registered after the handler ends. */
  lemma ServeLeavesNoTrace(s: seq<WebSocket>, ws: WebSocket, acceptOk: bool, rounds: seq<nat -> bool>)
    ensures var r := RemoveFirst(if acceptOk then AfterRounds(s + [ws], rounds) else s, ws);
              multiset(r) <= multiset(s) && (ws !in s ==> ws !in r)
  {
    var x := if acceptOk then AfterRounds(s + [ws], rounds) else s;
    assert multiset(x) <= multiset(s) + multiset{ws} by {
      if acceptOk {
        RoundsOnlyShrink(s + [ws], rounds);
        assert multiset(s + [ws]) == multiset(s) + multiset{ws};
      }
    }
    RemoveFirstGone(x, s, ws);
  }

  /** Removing `ws` from a list that holds at most one copy of it more than `s` leaves
      at most what `s` holds. */
  lemma RemoveFirstGone<T>(x: seq<T>, s: seq<T>, ws: T)
    requires multiset(x) <= multiset(s) + multiset{ws}
    ensures multiset(RemoveFirst(x, ws)) <= multiset(s)
    ensures ws !in s ==> ws !in RemoveFirst(x, ws)
  {
    RemoveFirstCounts(x, ws);
    assert multiset(x)[ws] <= multiset(s)[ws] + 1;
  }
}

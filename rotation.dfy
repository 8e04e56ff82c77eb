/**
 * The round-robin selection rule as pure functions over the server list and the
 * cursor: where the scan of `getNextAvailableServer` stops, which server it
 * returns, where it leaves the cursor, and what a run of consecutive calls does.
 */
module Rotation {
  import opened Backend

  /** Some server in the list reports alive. */
  predicate SomeAlive(servers: seq<Server>) {
    exists i :: 0 <= i < |servers| && servers[i].IsAlive()
  }

  /** Every server in the list reports alive (the case of `simpleServer`). */
  predicate AllAlive(servers: seq<Server>) {
    forall i :: 0 <= i < |servers| ==> servers[i].IsAlive()
  }

  /**
   * The index `k` places forward from `start` in a ring of `n` positions, for
   * `k` below `n` (`AdvanceWithinPass` shows it is where `k` cursor steps lead).
   */
  function Slot(n: nat, start: nat, k: nat): (r: nat)
    requires start < n && k < n
    ensures r < n
  {
    if start + k < n then start + k else start + k - n
  }

  /**
   * One step of the cursor around a ring of `n` positions, `(i + 1) % n` in the
   * source, which wraps from the last index to the first.
   */
  function Step(n: nat, i: nat): (r: nat)
    requires i < n
    ensures r == (i + 1) % n
    ensures r < n
  {
    if i + 1 == n then 0 else i + 1
  }

  /**
   * How far forward, circularly, index `to` lies from index `from` in a ring of
   * `n` positions.
   */
  function Gap(n: nat, from: nat, to: nat): (g: nat)
    requires from < n && to < n
    ensures g < n
    ensures Slot(n, from, g) == to
  {
    if from <= to then to - from else to + n - from
  }

  /**
   * The scan that starts at `start`: the first offset `k >= d` below the list
   * length at which the server `(start + k) % N` is alive, or `N` when a full
   * pass from `d` on finds none.
   */
  function FirstAliveOffset(servers: seq<Server>, start: nat, d: nat): (k: nat)
    requires start < |servers| && d <= |servers|
    ensures d <= k <= |servers|
    ensures k < |servers| ==> servers[Slot(|servers|, start, k)].IsAlive()
    ensures forall j :: d <= j < k ==> !servers[Slot(|servers|, start, j)].IsAlive()
    decreases |servers| - d
  {
    if d == |servers| then d
    else if servers[Slot(|servers|, start, d)].IsAlive() then d
    else FirstAliveOffset(servers, start, d + 1)
  }

  /** Circular distance from the cursor to the next alive server: the loop's measure. */
  function Dist(servers: seq<Server>, c: nat): nat
    requires c < |servers|
  {
    FirstAliveOffset(servers, c, 0)
  }

  /** A full pass of the scan finds an alive server exactly when one exists. */
  lemma ScanFindsIffSomeAlive(servers: seq<Server>, c: nat)
    requires c < |servers|
    ensures Dist(servers, c) < |servers| <==> SomeAlive(servers)
  {
    var n := |servers|;
    if SomeAlive(servers) {
      var i :| 0 <= i < n && servers[i].IsAlive();
      var g := Gap(n, c, i);
      assert servers[Slot(n, c, g)].IsAlive();
    }
  }

  /** The index of the server `getNextAvailableServer` returns from cursor `c`. */
  function Chosen(servers: seq<Server>, c: nat): (r: nat)
    requires c < |servers| && SomeAlive(servers)
    ensures r < |servers|
    ensures servers[r].IsAlive()
  {
    ScanFindsIffSomeAlive(servers, c);
    Slot(|servers|, c, Dist(servers, c))
  }

  /** The cursor `getNextAvailableServer` leaves behind: one past the chosen server. */
  function NextCursor(servers: seq<Server>, c: nat): (r: nat)
    requires c < |servers| && SomeAlive(servers)
    ensures r < |servers|
  {
    Step(|servers|, Chosen(servers, c))
  }

  /**
   * The chosen server is alive, and no server that lies circularly before it,
   * counting from the cursor, is alive: it is the nearest alive server at or
   * after the cursor.
   */
  lemma ChosenIsNearestAlive(servers: seq<Server>, c: nat)
    requires c < |servers| && SomeAlive(servers)
    ensures servers[Chosen(servers, c)].IsAlive()
    ensures forall i :: 0 <= i < |servers| && Gap(|servers|, c, i) < Gap(|servers|, c, Chosen(servers, c)) ==>
              !servers[i].IsAlive()
  {
  }

  /** A scan whose first alive server lies `k` steps on has measure `k`. */
  lemma FirstAliveAt(servers: seq<Server>, c: nat, k: nat)
    requires c < |servers| && k < |servers|
    requires servers[Slot(|servers|, c, k)].IsAlive()
    requires forall j :: 0 <= j < k ==> !servers[Slot(|servers|, c, j)].IsAlive()
    ensures Dist(servers, c) == k
  {
  }

  /**
   * One iteration of the skip-dead loop: stepping past a dead server at the
   * cursor shortens the distance to the next alive server by one and does not
   * change which server the scan ends on.
   */
  lemma {:induction false} DeadStep(servers: seq<Server>, c: nat)
    requires c < |servers| && SomeAlive(servers)
    requires !servers[c].IsAlive()
    ensures Dist(servers, Step(|servers|, c)) + 1 == Dist(servers, c)
    ensures Chosen(servers, Step(|servers|, c)) == Chosen(servers, c)
  {
    var n := |servers|;
    var m := Dist(servers, c);
    ScanFindsIffSomeAlive(servers, c);
    assert Slot(n, c, 0) == c;
    assert 1 <= m < n;
    var c' := Step(n, c);
    forall j | 0 <= j < m - 1
      ensures !servers[Slot(n, c', j)].IsAlive()
    {
      assert Slot(n, c', j) == Slot(n, c, j + 1);
    }
    assert Slot(n, c', m - 1) == Slot(n, c, m);
    FirstAliveAt(servers, c', m - 1);
  }

  /** A cursor already on an alive server selects that server. */
  lemma AliveHereIsChosen(servers: seq<Server>, c: nat)
    requires c < |servers| && servers[c].IsAlive()
    ensures SomeAlive(servers)
    ensures Chosen(servers, c) == c
  {
  }

  /**
   * With every server alive, a call returns the server at the cursor and moves
   * the cursor one step on.
   */
  lemma AllAliveStep(servers: seq<Server>, c: nat)
    requires c < |servers| && AllAlive(servers)
    ensures SomeAlive(servers)
    ensures Chosen(servers, c) == c
    ensures NextCursor(servers, c) == Step(|servers|, c)
  {
    AliveHereIsChosen(servers, c);
  }

  /** The servers returned by `k` consecutive calls that start at cursor `c`. */
  function Selections(servers: seq<Server>, c: nat, k: nat): (picked: seq<Server>)
    requires c < |servers| && SomeAlive(servers)
    ensures |picked| == k
    ensures forall i :: 0 <= i < k ==> picked[i].IsAlive()
    decreases k
  {
    if k == 0 then []
    else [servers[Chosen(servers, c)]] + Selections(servers, NextCursor(servers, c), k - 1)
  }

  /** The cursor after `k` consecutive calls that start at cursor `c`. */
  function CursorAfter(servers: seq<Server>, c: nat, k: nat): (r: nat)
    requires c < |servers| && SomeAlive(servers)
    ensures r < |servers|
    decreases k
  {
    if k == 0 then c else CursorAfter(servers, NextCursor(servers, c), k - 1)
  }

  /**
   * With every server alive, `k` consecutive calls from cursor `c` return the
   * servers at `c, c + 1, ...` taken circularly, and leave the cursor `k` steps on.
   */
  lemma {:induction false} AllAliveRotation(servers: seq<Server>, c: nat, k: nat)
    requires c < |servers| && AllAlive(servers)
    ensures SomeAlive(servers)
    ensures |Selections(servers, c, k)| == k
    ensures forall i :: 0 <= i < k ==> Selections(servers, c, k)[i] == servers[Advance(|servers|, c, i)]
    ensures CursorAfter(servers, c, k) == Advance(|servers|, c, k)
    decreases k
  {
    var n := |servers|;
    AllAliveStep(servers, c);
    if k > 0 {
      var c' := Step(n, c);
      AllAliveRotation(servers, c', k - 1);
      var rest := Selections(servers, c', k - 1);
      assert Selections(servers, c, k) == [servers[c]] + rest;
      forall i | 1 <= i < k
        ensures Selections(servers, c, k)[i] == servers[Advance(n, c, i)]
      {
        assert Selections(servers, c, k)[i] == rest[i - 1];
        AdvanceShift(n, c, i);
      }
      assert CursorAfter(servers, c, k) == CursorAfter(servers, c', k - 1);
      AdvanceShift(n, c, k);
    }
  }

  /**
   * With every server alive, `N` consecutive calls from a fresh balancer
   * (cursor 0) return every server once, in list order, and bring the cursor
   * back to 0.
   */
  lemma FullRotation(servers: seq<Server>)
    requires |servers| > 0 && AllAlive(servers)
    ensures SomeAlive(servers)
    ensures Selections(servers, 0, |servers|) == servers
    ensures CursorAfter(servers, 0, |servers|) == 0
  {
    var n := |servers|;
    AllAliveRotation(servers, 0, n);
    assert Selections(servers, 0, n) == servers by {
      var picked := Selections(servers, 0, n);
      forall i | 0 <= i < n
        ensures picked[i] == servers[i]
      {
        AdvanceWithinPass(n, 0, i);
      }
    }
    assert Advance(n, 0, n) == 0 by {
      AdvanceWithinPass(n, 0, n - 1);
      assert Advance(n, 0, n) == Step(n, n - 1);
    }
  }

  /** `n` single steps around a ring of `n` positions lead back to the start. */
  lemma {:induction false} AdvanceFullPass(n: nat, c: nat)
    requires c < n
    ensures Advance(n, c, n) == c
  {
    AdvanceWithinPass(n, c, n - 1);
  }

  /**
   * With every server alive, `N` consecutive calls from any cursor `c` return
   * every server once, in circular order starting at `c`, and bring the cursor
   * back to `c`.
   */
  lemma FullRotationFrom(servers: seq<Server>, c: nat)
    requires c < |servers| && AllAlive(servers)
    ensures SomeAlive(servers)
    ensures |Selections(servers, c, |servers|)| == |servers|
    ensures forall i :: 0 <= i < |servers| ==> Selections(servers, c, |servers|)[i] == servers[Slot(|servers|, c, i)]
    ensures CursorAfter(servers, c, |servers|) == c
  {
    var n := |servers|;
    AllAliveRotation(servers, c, n);
    forall i | 0 <= i < n
      ensures Selections(servers, c, n)[i] == servers[Slot(n, c, i)]
    {
      AdvanceWithinPass(n, c, i);
    }
    AdvanceFullPass(n, c);
  }

  /**
   * With exactly one alive server, every call from any cursor returns that
   * server: all traffic goes to it.
   */
  lemma {:induction false} SoleAliveTakesAll(servers: seq<Server>, a: nat, c: nat, k: nat)
    requires a < |servers| && servers[a].IsAlive()
    requires forall j :: 0 <= j < |servers| && j != a ==> !servers[j].IsAlive()
    requires c < |servers|
    ensures SomeAlive(servers)
    ensures |Selections(servers, c, k)| == k
    ensures forall i :: 0 <= i < k ==> Selections(servers, c, k)[i] == servers[a]
    decreases k
  {
    AliveHereIsChosen(servers, a);
    ChosenIsNearestAlive(servers, c);
    if k > 0 {
      SoleAliveTakesAll(servers, a, NextCursor(servers, c), k - 1);
    }
  }

  /**
   * The cursor after `k` single steps `i := (i + 1) % n` from `c`: the update
   * both the skip-dead loop and each call apply.
   */
  function Advance(n: nat, c: nat, k: nat): (r: nat)
    requires c < n
    ensures r < n
  {
    if k == 0 then c else Step(n, Advance(n, c, k - 1))
  }

  /** Within one pass, `k` steps from `c` reach the index `k` places on. */
  lemma {:induction false} AdvanceWithinPass(n: nat, c: nat, k: nat)
    requires c < n && k < n
    ensures Advance(n, c, k) == Slot(n, c, k)
  {
    if k > 0 {
      AdvanceWithinPass(n, c, k - 1);
    }
  }

  /** Taking the first step and then `k - 1` more is taking `k` steps. */
  lemma {:induction false} AdvanceShift(n: nat, c: nat, k: nat)
    requires c < n && 1 <= k
    ensures Advance(n, Step(n, c), k - 1) == Advance(n, c, k)
  {
    if k > 1 {
      AdvanceShift(n, c, k - 1);
    }
  }

  /**
   * When some server is alive the skip-dead loop runs exactly `Dist` times:
   * every earlier iteration sees a dead server, and it stops on the chosen one.
   */
  lemma LoopStopsAtChosen(servers: seq<Server>, c: nat)
    requires c < |servers| && SomeAlive(servers)
    ensures Advance(|servers|, c, Dist(servers, c)) == Chosen(servers, c)
    ensures forall k :: 0 <= k < Dist(servers, c) ==> !servers[Advance(|servers|, c, k)].IsAlive()
  {
    var n := |servers|;
    ScanFindsIffSomeAlive(servers, c);
    AdvanceWithinPass(n, c, Dist(servers, c));
    forall k | 0 <= k < Dist(servers, c)
      ensures !servers[Advance(n, c, k)].IsAlive()
    {
      AdvanceWithinPass(n, c, k);
    }
  }

  /**
   * When no server is alive the skip-dead loop never exits: whatever the number
   * of iterations, the cursor rests on a dead server.
   */
  lemma NoneAliveLoopNeverExits(servers: seq<Server>, c: nat, k: nat)
    requires c < |servers| && !SomeAlive(servers)
    ensures !servers[Advance(|servers|, c, k)].IsAlive()
    ensures Dist(servers, c) == |servers|
  {
  }

  /**
   * Over servers built by `NewSimpleServer`, whose liveness stub always answers
   * true, `N` calls from a fresh balancer return the configured addresses in
   * list order.
   */
  lemma SimpleServersRotate(addrs: seq<string>)
    requires |addrs| > 0
    ensures var pool := seq(|addrs|, i requires 0 <= i < |addrs| => NewSimpleServer(addrs[i]));
            && SomeAlive(pool)
            && |Selections(pool, 0, |addrs|)| == |addrs|
            && (forall i :: 0 <= i < |addrs| ==> Selections(pool, 0, |addrs|)[i].Address() == addrs[i])
            && CursorAfter(pool, 0, |addrs|) == 0
  {
    var pool := seq(|addrs|, i requires 0 <= i < |addrs| => NewSimpleServer(addrs[i]));
    FullRotation(pool);
  }
}

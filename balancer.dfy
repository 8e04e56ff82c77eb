/**
 * The load balancer of main.go: the listening port, the ordered server list and
 * the round-robin cursor `roundRobinCount`, which every selection advances in
 * place.
 */
module Balancer {
  import opened Backend
  import opened Rotation

  class LoadBalancer {
    /** The port the listener binds; selection never changes it. */
    const port: string
    /** The backends in rotation order; selection never changes them. */
    const servers: seq<Server>
    /** The rotation cursor: where the next selection starts its scan. */
    var roundRobinCount: int

    /** The cursor indexes the server list. */
    ghost predicate Valid()
      reads this
    {
      0 <= roundRobinCount < |servers|
    }

    /**
     * `newLoadBalancer`: keeps the port and the server list as given and starts
     * the cursor at 0, so the cursor is a valid index exactly when the list is
     * non-empty. Selection further needs some server to be alive.
     */
    constructor (port: string, servers: seq<Server>)
      ensures this.port == port && this.servers == servers
      ensures roundRobinCount == 0
      ensures Valid() <==> |servers| > 0
    {
      this.port := port;
      this.servers := servers;
      roundRobinCount := 0;
    }

    /**
     * `getNextAvailableServer`: scan forward from the cursor, circularly, to the
     * first alive server, return it and leave the cursor one past it.
     *
     * The list must be non-empty (the first step indexes it) and some server
     * must be alive (otherwise the scan never ends, see `NoneAliveLoopNeverExits`).
     */
    method GetNextAvailableServer() returns (server: Server)
      requires Valid() && SomeAlive(servers)
      modifies this
      ensures Valid()
      ensures server.IsAlive()
      ensures server == servers[Chosen(servers, old(roundRobinCount))]
      ensures roundRobinCount == NextCursor(servers, old(roundRobinCount))
    {
      server := servers[roundRobinCount];
      while !server.IsAlive()
        invariant Valid()
        invariant server == servers[roundRobinCount]
        invariant Chosen(servers, roundRobinCount) == Chosen(servers, old(roundRobinCount))
        decreases Dist(servers, roundRobinCount)
      {
        DeadStep(servers, roundRobinCount);
        roundRobinCount := (roundRobinCount + 1) % |servers|;
        server := servers[roundRobinCount];
      }
      AliveHereIsChosen(servers, roundRobinCount);
      roundRobinCount := (roundRobinCount + 1) % |servers|;
    }
  }

  /**
   * `k` requests served one after another (each `serverProxy` call selects
   * once): the servers returned and the cursor left are those of `Selections`
   * and `CursorAfter`, so the rotation lemmas of `Rotation` apply to the class.
   */
  method SelectRepeatedly(lb: LoadBalancer, k: nat) returns (picked: seq<Server>)
    requires lb.Valid() && SomeAlive(lb.servers)
    modifies lb
    ensures lb.Valid()
    ensures picked == Selections(lb.servers, old(lb.roundRobinCount), k)
    ensures lb.roundRobinCount == CursorAfter(lb.servers, old(lb.roundRobinCount), k)
  {
    ghost var c0: nat := lb.roundRobinCount;
    picked := [];
    var i := 0;
    while i < k
      invariant 0 <= i <= k
      invariant lb.Valid()
      invariant picked + Selections(lb.servers, lb.roundRobinCount, k - i) == Selections(lb.servers, c0, k)
      invariant CursorAfter(lb.servers, lb.roundRobinCount, k - i) == CursorAfter(lb.servers, c0, k)
    {
      var server := lb.GetNextAvailableServer();
      picked := picked + [server];
      i := i + 1;
    }
  }
}

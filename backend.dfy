/**
 * One upstream server as the load balancer sees it (the `Server` interface of
 * main.go and its only implementation, `simpleServer`).
 *
 * The reverse proxy a `simpleServer` carries and its `Serve` operation are
 * network forwarding and are not part of this model; a server is reduced to
 * its configured address and the answer its liveness check gives.
 */
module Backend {

  /** A backend: the address it was configured with and whether it reports alive. */
  datatype Server = Server(addr: string, alive: bool) {

    /** The configured upstream address (used for logging only). */
    function Address(): string {
      addr
    }

    /** The liveness predicate the selector consults. */
    predicate IsAlive() {
      alive
    }
  }

  /**
   * `newSimpleServer`: a server that keeps exactly the address it was given and
   * whose liveness check is the stub that always answers true.
   */
  function NewSimpleServer(addr: string): (s: Server)
    ensures s.Address() == addr
    ensures s.IsAlive()
  {
    Server(addr, true)
  }
}

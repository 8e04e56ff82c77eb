# Round-robin load balancer: a Dafny model

This project models the backend selector of a minimal HTTP load balancer written
in Go. The balancer keeps a listening port, an ordered list of backend servers and
a rotation cursor, `roundRobinCount`. For each request, `getNextAvailableServer`
starts at the cursor and walks forward circularly until it finds a server that
reports alive. It returns that server and leaves the cursor one place past it.

Modules:

- `Backend` (`backend.dfy`): a server is its configured address plus the answer
  its liveness check gives. The accessors `Server.Address` and `Server.IsAlive`
  are the getters of main.go:56 and main.go:58. `NewSimpleServer` builds the
  source's `simpleServer`, whose liveness stub always answers true. A general `alive` flag lets the model
  also cover the skip-dead branch of the selector.
- `Rotation` (`rotation.dfy`): the selection rule as pure functions. These cover
  where the scan stops (`FirstAliveOffset`, `Dist`), which server is chosen
  (`Chosen`), where the cursor goes (`NextCursor`) and what `k` consecutive calls
  return (`Selections`, `CursorAfter`). The lemmas prove the properties of these
  functions.
- `Balancer` (`balancer.dfy`): the `LoadBalancer` class. `port` and `servers`
  are constants, so selection cannot change them. `roundRobinCount` is the one
  mutable field. `GetNextAvailableServer` is the source's loop. Its
  termination measure is the circular distance from the cursor to the next alive
  server, and its postcondition ties the returned server and the new cursor to
  `Chosen` and `NextCursor`. `SelectRepeatedly` serves k requests in a row
  through that method and ties the outcome to `Selections` and `CursorAfter`.

Go's `%` truncates toward zero and Dafny's is Euclidean. They agree here
because the cursor is never negative. `Rotation.Step` proves that its
wrap-around step equals `(i + 1) % n`.

## Model

| member | source | states |
|---|---|---|
| `Backend.NewSimpleServer` | main.go:23-31 | a simple server keeps exactly the address it was built with and reports alive |
| `Rotation.SimpleServersRotate` | main.go:56-58 | with servers whose `IsAlive` is the constant true and whose `Address` returns the configured string, N calls from cursor 0 yield the configured addresses in order and return the cursor to 0 |
| `Rotation.Step` | main.go:68 | the cursor update `(i + 1) % n` wraps from the last index to 0 and always gives a valid index |
| `Rotation.FirstAliveOffset` | main.go:66-70 | the scan stops at the first offset, counted from the cursor, whose server is alive; every server before it is dead; it reports a full pass when none is alive |
| `Rotation.ScanFindsIffSomeAlive` | main.go:67-70 | a full pass of the scan finds an alive server if and only if the list holds one |
| `Rotation.ChosenIsNearestAlive` | main.go:66-72 | the returned server is alive, and no server circularly between the cursor and it is alive |
| `Rotation.FirstAliveAt` | main.go:66-70 | the scan's measure is the offset of the first alive server, which determines it uniquely |
| `Rotation.DeadStep` | main.go:67-69 | skipping a dead server at the cursor shortens the distance to the next alive server by one and keeps the same target (the loop's termination measure) |
| `Rotation.AliveHereIsChosen` | main.go:66-67 | a cursor already on an alive server selects that server without looping |
| `Rotation.Chosen` | main.go:66-70 | the index the scan stops on, which is the cursor moved on by the offset of the first alive server; it is a valid index and that server is alive |
| `Rotation.Selections` | main.go:65-73 | the servers returned by k calls in a row, each starting where the previous one left the cursor: exactly k servers, all alive |
| `Rotation.CursorAfter` | main.go:65-73 | the cursor left after k calls in a row; it is always a valid index |
| `Rotation.Advance` | main.go:68 | the cursor after k repetitions of the update `(count + 1) % len`; it is always a valid index |
| `Rotation.NextCursor` | main.go:71 | the cursor left behind is always a valid index |
| `Rotation.AllAliveStep` | main.go:66-71 | with every server alive, a call returns the server at the cursor and moves the cursor to `(cursor + 1) % N` |
| `Rotation.AllAliveRotation` | main.go:65-73 | with every server alive, k calls from cursor c return the servers c, c+1, ... circularly and leave the cursor k steps on |
| `Rotation.FullRotation` | main.go:65-73 | with every server alive, N calls from cursor 0 return exactly the server list in order and bring the cursor back to 0 |
| `Rotation.AdvanceFullPass` | main.go:68-71 | N single cursor steps around a list of N servers lead back to the starting cursor |
| `Rotation.FullRotationFrom` | main.go:65-73 | with every server alive, N calls from any cursor c return each server once, in circular order starting at c, and bring the cursor back to c |
| `Rotation.SoleAliveTakesAll` | main.go:65-73 | when exactly one server is alive, every call from any cursor returns it |
| `Rotation.AdvanceWithinPass` | main.go:67-69 | k loop iterations within one pass move the cursor k places on, circularly |
| `Rotation.AdvanceShift` | main.go:68-71 | one step followed by k-1 more steps is the same as k steps |
| `Rotation.LoopStopsAtChosen` | main.go:67-70 | when a server is alive, the loop runs exactly `Dist` times, sees only dead servers before then, and stops on the chosen server |
| `Rotation.NoneAliveLoopNeverExits` | main.go:67-70 | when no server is alive, the cursor rests on a dead server after any number of loop iterations, so the loop never exits |
| `Balancer.LoadBalancer.constructor` | main.go:40-46 | the port and server list are stored unchanged and the cursor starts at 0; the cursor is a valid index exactly when the list is non-empty (selection further needs some alive server) |
| `Balancer.LoadBalancer.GetNextAvailableServer` | main.go:65-73 | needs a non-empty list with some alive server; returns an alive server, namely the first alive one at or after the old cursor; the new cursor is one past it mod N and stays in range; port and list are unchanged |
| `Balancer.SelectRepeatedly` | main.go:75-76 | k requests served one after another, each selecting once, return exactly `Selections` from the starting cursor and leave the cursor at `CursorAfter`, so the rotation lemmas hold of the class itself |

## Left out

- Request forwarding: `Serve`, the reverse proxy and its construction (main.go:19, main.go:29, main.go:60-62). These are network I/O through a library this model cannot see.
- URL parsing in `newSimpleServer` (main.go:24). The model keeps only the stored address string. A malformed address exits the process, which is not modelled.
- `handelErr` (main.go:49-54) logs the error and exits the process.
- `serverProxy` (main.go:75-79): apart from one call to the selector, it only logs the chosen address and forwards the request.
- `main` (main.go:81-95) only wires fixed values into an HTTP listener. The listener blocks until it fails, and `main` ignores the error it returns.
- Concurrency: HTTP handlers run in parallel and update `roundRobinCount` without synchronisation. The model treats calls as sequential, so the lost or repeated updates of that data race are not captured.
- Liveness is a fixed value of each server. Real liveness could change while one scan is in progress or between calls; `Selections` and the rotation lemmas assume it stays the same across the calls they describe.
- The Go slice behind `servers` could be shared with, and mutated by, the caller after construction. The model stores an immutable sequence.
- Balancer.LoadBalancer.GetNextAvailableServer: an empty list (an index-out-of-range panic in the source) and a list with no alive server (an endless loop) are excluded by its precondition rather than modelled as outcomes. `NoneAliveLoopNeverExits` states the endless loop separately.

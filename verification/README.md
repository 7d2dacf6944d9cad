# Graph driver registry

A model of the driver registry of the `graph` package: a process-wide map from
a driver name to a driver, filled by calls to `Register` while the program
initialises. `Register` panics when it gets a nil driver. It also panics when
the name is already registered. Otherwise it binds the name to the driver.
Nothing ever removes or rebinds a name.

Layout:

- `driver.dfy` (module `Driver`): `Driver`, a stand-in for a value that
  implements the driver interface. It is modelled by its identity alone,
  because the registry only stores drivers and never calls them. Also
  `Option`, where `None` is the nil interface value.
- `graph.dfy` (module `Graph`): the registry type, `Register`, and its two
  panic messages, `"graph:Register driver is nil"` and
  `"graph:Register called twice for driver " + name`. A panic is the outcome
  `Panic(message, drivers)`, which carries the registry unchanged.
- `registrations.dfy` (module `Registrations`): sequences of `Register` calls.
  A panic ends the sequence. `RegisterAll` is the functional definition and
  `RegisterEach` is the imperative loop over one mutable registry.

Source and documentation disagree in one place. The duplicate test at
graph/graph.go:17 binds a variable named `udp` but then tests `dup`, so the
file does not compile as written. The model follows the doc comment at
graph/graph.go:10-12: registering a name a second time panics.

## Model

| member | source | states |
|---|---|---|
| Graph.Register | graph/graph.go:13-21 | Returns normally exactly when the driver is non-nil and the name is unbound. A nil driver gives the nil-driver panic, checked first, so it wins even for a bound name. A non-nil driver under a bound name gives the "called twice" panic naming that name. A panic leaves the registry unchanged. A normal return binds the name to exactly the given driver, adds exactly that one key, and keeps every other binding. |
| Graph.RegisterGrowsByOne | graph/graph.go:20 | A normal return leaves exactly one more driver in the registry. |
| Graph.PanicMessageNamesCause | graph/graph.go:14-19 | The two panic messages never coincide. The message is the nil-driver one exactly when the driver was nil. It is the duplicate one exactly when a non-nil driver met a bound name. |
| Registrations.RegisterAll | graph/graph.go:13-21 | Running calls in order, whether or not one panics, keeps every binding of the starting registry. A run that returns normally has added exactly the names it used. |
| Registrations.PanicIsFinal | graph/graph.go:14-19 | Once a prefix of the calls panics, the whole run ends in that same panic, with that registry. |
| Registrations.RegistrationIsMonotone | graph/graph.go:8-21 | Every later state of a run keeps every binding of every earlier state: a registered name's driver is fixed from then on. |
| Registrations.RegisterAllOkIff | graph/graph.go:13-21 | A run returns normally if and only if every driver is non-nil, no name was already registered, and no name is used twice. |
| Registrations.RegisterAllBindsEach | graph/graph.go:20 | After a run that returns normally, each call's name is bound to the driver that call passed. |
| Registrations.RegisterDistinctCalls | graph/graph.go:13-21 | Distinct fresh names with non-nil drivers return normally, and the registry grows by exactly the number of calls. |
| Registrations.RegisterDistinctFromEmpty | graph/graph.go:8-21 | From the empty registry the program starts with, distinct names with non-nil drivers leave exactly as many drivers as calls. |
| Registrations.RepeatedNamePanicsAtSecondOccurrence | graph/graph.go:14-19 | Suppose the calls before position j return normally and call j repeats an earlier name. Then the run panics at call j and keeps the registry the earlier calls built. The message is the nil-driver one if call j passes a nil driver, because that guard comes first. Otherwise it is the "called twice" message for that name. |
| Registrations.RegisterEach | graph/graph.go:13-21 | The loop of successive `Register` calls on one mutable registry, stopping at the first panic, reaches the same outcome as `RegisterAll`. |

## Left out

- Process abort: the model does not unwind a panic. A panic is an outcome value that carries the unchanged registry, and a sequence of calls stops there.
- Driver names: the model treats them as Unicode strings. A Go `string` is a byte string, so Go names that are not valid UTF-8 are outside the model. On valid UTF-8 names, map lookup and the message concatenation behave the same as in Go.
- Concurrency: the source map at graph/graph.go:8 has no lock, and the model is sequential.
- graph/driver/driver.go: the `Driver`, `Conn`, `Node`, `Relationship` and `Stmt` interfaces and the empty `Execer` and `Queryer` interfaces are not modelled, because they only declare methods. The one exception is the stand-in `Driver` type.
- `ErrSkip` and `ErrBadConn`: no code in these files uses them.
- Driver lookup, `Open`, the connection pool, the connection wrapper and the dependency tracker are not part of this model. The files contain no code for them.

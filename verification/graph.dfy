/**
 The process-wide driver registry: a map from driver name to driver, and the
 `Register` operation that adds a binding to it. A Go panic is modelled as a
 `Panic` outcome that carries the panic message and the registry exactly as
 it was before the call.
 */
module Graph {
  import opened Driver

  /** The registry: driver name to driver. */
  type Registry = map<string, Driver>

  /** The registry as the program starts: no driver registered. */
  const Empty: Registry := map[]

  /** What a call to `Register` leads to: normal return with the new
      registry, or a panic with its message and the untouched registry. */
  datatype Outcome =
    | Ok(drivers: Registry)
    | Panic(message: string, drivers: Registry)

  const NilDriverMessage: string := "graph:Register driver is nil"

  const DuplicatePrefix: string := "graph:Register called twice for driver "

  /** The panic message for a name that is already registered. */
  function DuplicateMessage(name: string): (m: string)
  {
    DuplicatePrefix + name
  }

  /** `after` keeps every binding of `before`: no name is removed or rebound. */
  ghost predicate Extends(before: Registry, after: Registry)
  {
    && before.Keys <= after.Keys
    && forall n :: n in before ==> after[n] == before[n]
  }

  /** Register a driver under a name. A nil driver panics; otherwise a name
      that is already bound panics; otherwise the name is bound to the driver.
      The nil check comes first, so a nil driver under a bound name reports
      the nil-driver panic. The source's duplicate test names its variable
      `udp` but reads `dup`, so it does not compile as written; this models
      the documented behaviour, that a second registration of a name panics. */
  function Register(drivers: Registry, name: string, driver: Option<Driver>): (r: Outcome)
    // It returns normally exactly when the driver is non-nil and the name is fresh.
    ensures r.Ok? <==> driver.Some? && name !in drivers
    ensures driver.None? ==> r.Panic? && r.message == NilDriverMessage
    ensures driver.Some? && name in drivers ==> r.Panic? && r.message == DuplicateMessage(name)
    // A panic leaves the registry as it was.
    ensures r.Panic? ==> r.drivers == drivers
    // A normal return binds the name to exactly this driver ...
    ensures r.Ok? ==> name in r.drivers && r.drivers[name] == driver.value
    // ... adds exactly that one name ...
    ensures r.Ok? ==> r.drivers.Keys == drivers.Keys + {name}
    // ... and keeps every other binding.
    ensures Extends(drivers, r.drivers)
  {
    if driver.None? then
      Panic(NilDriverMessage, drivers)
    else if name in drivers then
      Panic(DuplicateMessage(name), drivers)
    else
      Ok(drivers[name := driver.value])
  }

  /** A normal return grows the registry by exactly one driver. */
  lemma RegisterGrowsByOne(drivers: Registry, name: string, driver: Option<Driver>)
    requires Register(drivers, name, driver).Ok?
    ensures |Register(drivers, name, driver).drivers| == |drivers| + 1
  {
  }

  /** The two panic messages never coincide, so a panic message tells which
      guard fired: the nil-driver message exactly when the driver was nil, the
      duplicate message exactly when a non-nil driver met a bound name. */
  lemma PanicMessageNamesCause(drivers: Registry, name: string, driver: Option<Driver>)
    ensures var r := Register(drivers, name, driver);
            r.Panic? && r.message == NilDriverMessage <==> driver.None?
    ensures var r := Register(drivers, name, driver);
            r.Panic? && r.message == DuplicateMessage(name) <==> driver.Some? && name in drivers
  {
  }
}

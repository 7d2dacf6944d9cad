/**
 Sequences of `Register` calls, as a program's initialisation performs them
 one after another on the same process-wide registry. A panic ends the
 sequence: no later call runs, and the registry stays as the panicking call
 found it.
 */
module Registrations {
  import opened Driver
  import opened Graph

  /** One call `Register(name, driver)`. */
  datatype Call = Call(name: string, driver: Option<Driver>)

  /** The names used by a sequence of calls. */
  function NamesOf(calls: seq<Call>): (names: set<string>)
    decreases |calls|
  {
    if |calls| == 0 then {} else NamesOf(calls[..|calls| - 1]) + {calls[|calls| - 1].name}
  }

  /** A name is among `NamesOf(calls)` exactly when some call uses it. */
  lemma {:induction false} NamesOfMembership(calls: seq<Call>, name: string)
    ensures name in NamesOf(calls) <==> exists i :: 0 <= i < |calls| && calls[i].name == name
    decreases |calls|
  {
    if |calls| > 0 {
      var n := |calls| - 1;
      var shorter := calls[..n];
      NamesOfMembership(shorter, name);
      if exists i :: 0 <= i < |calls| && calls[i].name == name {
        var i :| 0 <= i < |calls| && calls[i].name == name;
        if i < n {
          assert shorter[i] == calls[i];
        }
      }
      if exists i :: 0 <= i < n && shorter[i].name == name {
        var i :| 0 <= i < n && shorter[i].name == name;
        assert calls[i] == shorter[i];
      }
    }
  }

  /** The calls all return normally from `drivers`: every driver is non-nil,
      no name is already bound, and no name is used twice. */
  ghost predicate Registrable(drivers: Registry, calls: seq<Call>)
  {
    && (forall i :: 0 <= i < |calls| ==> calls[i].driver.Some? && calls[i].name !in drivers)
    && (forall i, j :: 0 <= i < j < |calls| ==> calls[i].name != calls[j].name)
  }

  /** Run the calls in order from `drivers`, stopping at the first panic. */
  function RegisterAll(drivers: Registry, calls: seq<Call>): (r: Outcome)
    // No call removes or rebinds a name, whether or not the sequence panics.
    ensures Extends(drivers, r.drivers)
    // A sequence that returns normally has bound exactly its own names.
    ensures r.Ok? ==> r.drivers.Keys == drivers.Keys + NamesOf(calls)
    decreases |calls|
  {
    if |calls| == 0 then
      Ok(drivers)
    else
      var prior := RegisterAll(drivers, calls[..|calls| - 1]);
      var last := calls[|calls| - 1];
      if prior.Panic? then prior
      else
        Register(prior.drivers, last.name, last.driver)
  }

  /** Once a prefix of the calls panics, the whole sequence ends in that panic. */
  lemma {:induction false} PanicIsFinal(drivers: Registry, calls: seq<Call>, k: nat)
    requires k <= |calls|
    requires RegisterAll(drivers, calls[..k]).Panic?
    ensures RegisterAll(drivers, calls) == RegisterAll(drivers, calls[..k])
    decreases |calls| - k
  {
    if k < |calls| {
      var shorter := calls[..|calls| - 1];
      assert shorter[..k] == calls[..k];
      PanicIsFinal(drivers, shorter, k);
    } else {
      assert calls[..k] == calls;
    }
  }

  /** Every later state keeps every binding of every earlier state. */
  lemma {:induction false} RegistrationIsMonotone(drivers: Registry, calls: seq<Call>, k: nat)
    requires k <= |calls|
    ensures Extends(RegisterAll(drivers, calls[..k]).drivers, RegisterAll(drivers, calls).drivers)
    decreases |calls| - k
  {
    if k < |calls| {
      var shorter := calls[..|calls| - 1];
      assert shorter[..k] == calls[..k];
      RegistrationIsMonotone(drivers, shorter, k);
    } else {
      assert calls[..k] == calls;
    }
  }

  /** A sequence is registrable exactly when its calls before the last are,
      and the last call has a non-nil driver and a name neither bound nor
      used before. */
  lemma RegistrableSnoc(drivers: Registry, calls: seq<Call>)
    requires |calls| > 0
    ensures var n := |calls| - 1;
            Registrable(drivers, calls)
            <==> && Registrable(drivers, calls[..n])
                 && calls[n].driver.Some?
                 && calls[n].name !in drivers
                 && calls[n].name !in NamesOf(calls[..n])
  {
    var n := |calls| - 1;
    var shorter := calls[..n];
    var last := calls[n];
    NamesOfMembership(shorter, last.name);
    if Registrable(drivers, calls) {
      forall i | 0 <= i < n ensures shorter[i].name != last.name {
        assert calls[i] == shorter[i];
      }
    }
    if && Registrable(drivers, shorter) && last.driver.Some?
       && last.name !in drivers && last.name !in NamesOf(shorter)
    {
      forall i, j | 0 <= i < j < |calls| ensures calls[i].name != calls[j].name {
        assert shorter[i] == calls[i];
        if j < n {
          assert shorter[j] == calls[j];
        }
      }
      forall i | 0 <= i < n ensures calls[i].driver.Some? && calls[i].name !in drivers {
        assert shorter[i] == calls[i];
      }
    }
  }

  /** A sequence of calls returns normally exactly when it is registrable. */
  lemma {:induction false} RegisterAllOkIff(drivers: Registry, calls: seq<Call>)
    ensures RegisterAll(drivers, calls).Ok? <==> Registrable(drivers, calls)
    decreases |calls|
  {
    if |calls| > 0 {
      var n := |calls| - 1;
      RegisterAllOkIff(drivers, calls[..n]);
      RegistrableSnoc(drivers, calls);
    }
  }

  /** A sequence that returns normally binds every name it used to the
      driver that name's call passed. */
  lemma {:induction false} RegisterAllBindsEach(drivers: Registry, calls: seq<Call>)
    requires RegisterAll(drivers, calls).Ok?
    ensures var r := RegisterAll(drivers, calls);
            forall i :: 0 <= i < |calls| ==>
              calls[i].name in r.drivers && calls[i].driver == Some(r.drivers[calls[i].name])
    decreases |calls|
  {
    if |calls| > 0 {
      var n := |calls| - 1;
      var shorter := calls[..n];
      var prior := RegisterAll(drivers, shorter);
      var r := RegisterAll(drivers, calls);
      RegisterAllBindsEach(drivers, shorter);
      assert r == Register(prior.drivers, calls[n].name, calls[n].driver);
      forall i | 0 <= i < |calls|
        ensures calls[i].name in r.drivers && calls[i].driver == Some(r.drivers[calls[i].name])
      {
        if i < n {
          assert shorter[i] == calls[i];
          assert calls[i].name in prior.drivers;
          assert calls[i].driver == Some(prior.drivers[calls[i].name]);
          assert prior.drivers[calls[i].name] == r.drivers[calls[i].name];
        } else {
          assert i == n;
          assert r.drivers[calls[n].name] == calls[n].driver.value;
        }
      }
    }
  }

  /** Registering distinct names with non-nil drivers, none already bound,
      returns normally and grows the registry by exactly the number of calls. */
  lemma {:induction false} RegisterDistinctCalls(drivers: Registry, calls: seq<Call>)
    requires Registrable(drivers, calls)
    ensures RegisterAll(drivers, calls).Ok?
    ensures |RegisterAll(drivers, calls).drivers| == |drivers| + |calls|
    decreases |calls|
  {
    RegisterAllOkIff(drivers, calls);
    if |calls| > 0 {
      var n := |calls| - 1;
      RegistrableSnoc(drivers, calls);
      RegisterDistinctCalls(drivers, calls[..n]);
      var prior := RegisterAll(drivers, calls[..n]);
      assert RegisterAll(drivers, calls) == Register(prior.drivers, calls[n].name, calls[n].driver);
      RegisterGrowsByOne(prior.drivers, calls[n].name, calls[n].driver);
    }
  }

  /** Starting from the empty registry, distinct non-nil registrations leave
      exactly as many drivers as calls. */
  lemma RegisterDistinctFromEmpty(calls: seq<Call>)
    requires forall i :: 0 <= i < |calls| ==> calls[i].driver.Some?
    requires forall i, j :: 0 <= i < j < |calls| ==> calls[i].name != calls[j].name
    ensures RegisterAll(Empty, calls).Ok? && |RegisterAll(Empty, calls).drivers| == |calls|
  {
    assert Registrable(Empty, calls);
    RegisterDistinctCalls(Empty, calls);
  }

  /** When the first `j` calls return normally and call `j` repeats the name of
      an earlier call, the sequence panics at call `j`, leaving the registry
      the first `j` calls built: with the nil-driver message when call `j`
      passes a nil driver (that guard comes first), and with the duplicate
      message for that name otherwise. */
  lemma RepeatedNamePanicsAtSecondOccurrence(drivers: Registry, calls: seq<Call>, i: nat, j: nat)
    requires i < j < |calls|
    requires calls[i].name == calls[j].name
    requires Registrable(drivers, calls[..j])
    ensures RegisterAll(drivers, calls)
            == Panic(if calls[j].driver.None? then NilDriverMessage else DuplicateMessage(calls[j].name),
                     RegisterAll(drivers, calls[..j]).drivers)
  {
    var prefix := calls[..j];
    var prior := RegisterAll(drivers, prefix);
    assert prior.Ok? && calls[j].name in prior.drivers by {
      RegisterAllOkIff(drivers, prefix);
      assert prefix[i].name == calls[i].name;
      NamesOfMembership(prefix, calls[i].name);
    }
    assert RegisterAll(drivers, calls[..j + 1]) == Register(prior.drivers, calls[j].name, calls[j].driver) by {
      assert calls[..j + 1][..j] == prefix;
    }
    PanicIsFinal(drivers, calls, j + 1);
  }

  /** The registrations as the program performs them: one `Register` call
      after another on a single mutable registry, the first panic ending the
      run. It reaches the same outcome as `RegisterAll`. */
  method RegisterEach(initial: Registry, calls: seq<Call>) returns (r: Outcome)
    ensures r == RegisterAll(initial, calls)
  {
    var drivers := initial;
    var i := 0;
    while i < |calls|
      invariant 0 <= i <= |calls|
      invariant RegisterAll(initial, calls[..i]) == Ok(drivers)
    {
      assert calls[..i + 1][..i] == calls[..i];
      var step := Register(drivers, calls[i].name, calls[i].driver);
      if step.Panic? {
        PanicIsFinal(initial, calls, i + 1);
        return step;
      }
      drivers := step.drivers;
      i := i + 1;
    }
    assert calls[..i] == calls;
    r := Ok(drivers);
  }
}

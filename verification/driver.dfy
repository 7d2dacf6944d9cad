/**
 The part of the driver package the registry depends on: a value that
 implements the driver interface, and the possibility that the value
 handed to the registry is nil.
 */
module Driver {

  /** Stands in for a value implementing the driver interface. The registry
      never calls into a driver; it only stores it, so a driver is modelled
      by its identity alone. */
  datatype Driver = Driver(id: nat)

  /** An interface value that may be nil: `None` is the nil driver. */
  datatype Option<+T> = None | Some(value: T)
}

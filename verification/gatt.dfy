/**
 The data the demo central works on: the adapter state, the GATT tree of one
 connected peripheral as the transport library reports it, and the library
 calls the central issues.

 The library's internals are not modelled. Every library operation whose
 success decides the central's next step has its outcome stored in the tree
 node it concerns: a `Discovery` says whether a discover call returned a list
 or an error, an `Outcome` whether a read or subscribe returned an error.
 */
module Gatt {

  /** Power state reported by the adapter (gatt.State). */
  datatype State = Unknown | Resetting | Unsupported | Unauthorized | PoweredOff | PoweredOn

  type Uuid = seq<bv8>

  /** A characteristic's property bitmask, one byte on the wire. */
  type Property = bv8

  // Property bits from section 3.3.1.1 of Part G, Volume 3 of the Bluetooth Core Specification
  const CharRead: Property := 0x02
  const CharNotify: Property := 0x10
  const CharIndicate: Property := 0x20

  predicate Readable(props: Property) {
    props & CharRead != 0
  }

  predicate Subscribable(props: Property) {
    props & (CharNotify | CharIndicate) != 0
  }

  /** Whether a library call that returns only an error succeeded. */
  datatype Outcome = Succeeds | Fails

  /** Result of a discover call: the discovered children in discovery order, or an error. */
  datatype Discovery<T> = Found(items: seq<T>) | Failed

  datatype Descriptor = Descriptor(uuid: Uuid, read: Outcome)

  datatype Characteristic = Characteristic(
    uuid: Uuid,
    properties: Property,
    read: Outcome,
    descriptors: Discovery<Descriptor>,
    subscribe: Outcome)

  datatype Service = Service(uuid: Uuid, characteristics: Discovery<Characteristic>)

  /** One connected peripheral: its identity string and what service discovery returns. */
  datatype Peripheral = Peripheral(id: string, services: Discovery<Service>)

  /**
   A call into the transport library. Calls about the GATT hierarchy name
   their target by position in discovery order: `svc` is the service's index
   in the discovered services, `chr` the characteristic's index among that
   service's characteristics, `dsc` the descriptor's index among that
   characteristic's descriptors.
   */
  datatype Call =
    | Scan(services: seq<Uuid>, allowDuplicates: bool)
    | StopScanning
    | Connect(peripheral: string)
    | CancelConnection(peripheral: string)
    | SetMtu(peripheral: string)
    | DiscoverServices
    | DiscoverCharacteristics(svc: nat)
    | ReadCharacteristic(svc: nat, chr: nat)
    | DiscoverDescriptors(svc: nat, chr: nat)
    | ReadDescriptor(svc: nat, chr: nat, dsc: nat)
    | SetNotifyValue(svc: nat, chr: nat)
  {
    /** A call about one characteristic or one of its descriptors. */
    predicate OnCharacteristic() {
      ReadCharacteristic? || DiscoverDescriptors? || ReadDescriptor? || SetNotifyValue?
    }

    /** A call about one service or something below it. */
    predicate OnService() {
      DiscoverCharacteristics? || OnCharacteristic()
    }

    /** A call made while walking the GATT hierarchy. */
    predicate IsEnumeration() {
      DiscoverServices? || OnService()
    }
  }
}

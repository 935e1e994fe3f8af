/**
 The two adapter-level handlers as the program registers them (lines
 152-158): adapter state changes go to the state monitor, discovered
 peripherals to the filter. The event stream is an input; which events the
 library delivers, and when, is its own business.
 */
module Central {
  import opened Gatt
  import opened Adapter
  import opened Filter

  datatype Event = StateChanged(state: State) | PeripheralDiscovered(id: string)

  /** The calls one event leads to, given the positional command-line arguments. */
  function Handle(args: seq<string>, e: Event): seq<Call> {
    match e
    case StateChanged(s) => OnStateChanged(s)
    case PeripheralDiscovered(id) => OnPeriphDiscovered(args, id)
  }

  /** The calls a sequence of events leads to, in delivery order. */
  function Run(args: seq<string>, events: seq<Event>): seq<Call> {
    if |events| == 0 then []
    else Run(args, events[..|events| - 1]) + Handle(args, events[|events| - 1])
  }

  /**
   Every connect in a session goes to a peripheral that passes the filter,
   comes right after a StopScanning call, and so is issued with no scan
   running; every scan is unfiltered and drops duplicates.
   */
  lemma {:induction false} ConnectOnlyMatchingWithScanStopped(args: seq<string>, events: seq<Event>, k: nat)
    requires k < |Run(args, events)|
    ensures Run(args, events)[k].Connect? ==>
      && k > 0
      && Run(args, events)[k - 1] == StopScanning
      && !Scanning(Run(args, events)[..k + 1])
      && (|args| == 0 || SameIgnoringCase(args[0], Run(args, events)[k].peripheral))
    ensures Run(args, events)[k].Scan? ==> Run(args, events)[k] == Scan([], false)
  {
    var r := Run(args, events);
    var earlier := Run(args, events[..|events| - 1]);
    var last := Handle(args, events[|events| - 1]);
    assert r == earlier + last;
    if k < |earlier| {
      ConnectOnlyMatchingWithScanStopped(args, events[..|events| - 1], k);
      assert r[..k + 1] == earlier[..k + 1];
    } else if r[k].Connect? {
      assert last == [StopScanning, Connect(events[|events| - 1].id)];
      assert k == |earlier| + 1;
      assert r[..k + 1][..k] == r[..k];
    }
  }

  /**
   Nothing in the handlers limits a session to one connect: a second
   PoweredOn restarts the scan, and the next match is connected as well.
   */
  lemma SecondPoweredOnAllowsSecondConnect()
    ensures Run([], [StateChanged(PoweredOn), PeripheralDiscovered("A"), StateChanged(PoweredOn), PeripheralDiscovered("B")])
         == [Scan([], false), StopScanning, Connect("A"), Scan([], false), StopScanning, Connect("B")]
  {
    var events := [StateChanged(PoweredOn), PeripheralDiscovered("A"), StateChanged(PoweredOn), PeripheralDiscovered("B")];
    assert events[..3] == events[..4][..3] && events[..3][..2] == events[..2] && events[..2][..1] == events[..1];
    assert events[..1][..0] == [];
    assert Run([], events[..1]) == [Scan([], false)];
    assert Run([], events[..2]) == [Scan([], false), StopScanning, Connect("A")];
    assert Run([], events[..3]) == [Scan([], false), StopScanning, Connect("A"), Scan([], false)];
    assert events == events[..4];
  }
}

# Demo BLE central of the gatt library, modelled in Dafny

The `examples/test.go` program of the gatt library is a small Bluetooth Low
Energy central. It waits for the adapter to power on and then scans. It picks
one advertising peripheral, optionally the one whose identity matches the
command-line argument ignoring case. It connects to it and walks the
peripheral's GATT hierarchy (services, characteristics, descriptors), reading
what is readable and subscribing to what notifies or indicates. A deferred
call cancels the connection when the walk ends.

Every call into the library is modelled as an event in a call trace
(`Gatt.Call`). Success or failure of a library operation is an input stored
in the immutable GATT tree the walk runs over (`Gatt.Peripheral`):

- a discover call yields `Found(items)` or `Failed`;
- a read or subscribe yields `Succeeds` or `Fails`.

The handlers are pure functions from their inputs to the calls they issue.

Modules:

- `Gatt` (gatt.dfy): adapter states, property bits, the GATT tree, the calls.
- `Adapter` (adapter.dfy): `onStateChanged` and whether a scan is running.
- `Filter` (filter.dfy): the identity filter of `onPeriphDiscovered`.
- `Central` (central.dfy): both adapter-level handlers applied to a stream of events.
- `Enumeration` (enumeration.dfy): one pass of `enumAllTheThings`, as a trace.
- `PassProperties` (pass_properties.dfy): which calls a pass issues, in what
  order, how far each failure reaches, and which outcomes cannot change it.
- `Connection` (connection.dfy): the endless loop of `onPeriphConnected`,
  over any finite number of rounds.

Hierarchy calls name their target by position in discovery order.
`ReadDescriptor(i, j, k)` reads descriptor `k` of characteristic `j` of
service `i`.

The model follows the code as written; in particular:

- A failed characteristic read `continue`s (lines 88-91). It skips that
  characteristic's descriptor discovery, descriptor reads and subscribe. It is
  not a report-and-carry-on step.
- Line 54 assigns the method value `p.SetMTU` without calling it. A method
  value is never nil, so no MTU request is ever issued. The "failed" branch
  only prints. `Enumeration.Pass` states that no `SetMtu` call occurs.
- The connect error handed to `onPeriphConnected` is never consulted. Line 58
  overwrites it before it is ever read. Passes run regardless, forever
  (lines 44-47).
- A failed descriptor read `continue`s past only the print of its value
  (line 115). A failed subscribe `continue`s at the end of its loop body. So
  neither changes the trace (`PassProperties.PassDependsOnlyOnDecisions`).
- Nothing in the handlers limits a session to one connect. Every PoweredOn
  restarts the scan, and `onPeriphDiscovered` does not check for an existing
  connection (`Central.SecondPoweredOnAllowsSecondConnect`). Connecting to
  only the first match relies on the library delivering no further
  discoveries after StopScanning and no second PoweredOn.

## Model

| member | source | states |
|---|---|---|
| Adapter.OnStateChanged | examples/test.go:17-27 | PoweredOn issues exactly one call, an unfiltered Scan with duplicates off. Every other state issues exactly one StopScanning. |
| Adapter.ScanningFollowsLatestState | examples/test.go:19-26 | After any sequence of state changes, a scan is running exactly when the latest state is PoweredOn. |
| Filter.UpperCharIffSameLetter | examples/test.go:31-32 | Two characters have the same upper case exactly when they are equal, an ASCII letter pair of cases, or two spellings of i (i, I, dotless i) or of s (s, S, long s). |
| Filter.UpperEqualIffSameIgnoringCase | examples/test.go:31-32 | Comparing the upper-cased identities is comparing them up to letter case, in both directions. |
| Filter.OnPeriphDiscovered | examples/test.go:29-42 | A peripheral is ignored (no calls) exactly when a filter argument is given and differs from its identity beyond letter case. Otherwise the calls are StopScanning then Connect(p), in that order. |
| Filter.DotlessIMatchesCapitalI | examples/test.go:30-41 | A dotless i given as the filter selects a peripheral whose identity is "I", which is then connected. |
| Central.SecondPoweredOnAllowsSecondConnect | examples/test.go:17-41 | A second PoweredOn restarts the scan, and a second matching peripheral is connected as well. |
| Central.ConnectOnlyMatchingWithScanStopped | examples/test.go:30-41 | Across any event stream, every Connect goes to a peripheral that passes the filter. It directly follows a StopScanning, so no scan is running when it is issued. Every Scan is Scan([], false). |
| Enumeration.CharacteristicCalls | examples/test.go:77-127 | One characteristic's calls all concern that characteristic. They come in the order read, descriptor discovery, descriptor reads by position, subscribe. |
| Enumeration.CharacteristicsFrom | examples/test.go:77-128 | A service's characteristics are walked in discovery order. Every call concerns that service and one of its listed characteristics, in depth-first order. |
| Enumeration.ServiceCalls | examples/test.go:71-75 | A service's calls start with its characteristic discovery. Every call concerns that service, in depth-first order. |
| Enumeration.ServicesFrom | examples/test.go:64-130 | The services are walked in discovery order. Every call concerns a listed service, in depth-first order. |
| Enumeration.Walk | examples/test.go:54-62 | The walk starts with DiscoverServices and consists only of hierarchy calls, in depth-first order. The MTU step issues nothing. |
| Enumeration.Pass | examples/test.go:50-133 | A pass ends with CancelConnection(p) as its last call, and no other cancel occurs. The calls before it are hierarchy calls in depth-first order. No MTU request is issued. A failed service discovery gives exactly [DiscoverServices, CancelConnection(p)]. |
| PassProperties.CharacteristicDiscoveryIssued | examples/test.go:58-75 | DiscoverCharacteristics(i) occurs exactly when service discovery succeeded and listed service i. |
| PassProperties.CharacteristicReadIssued | examples/test.go:86-87 | ReadCharacteristic(i, j) occurs exactly when characteristic (i, j) is reached and its properties include CharRead. |
| PassProperties.DescriptorDiscoveryIssued | examples/test.go:86-96 | DiscoverDescriptors(i, j) occurs exactly when the characteristic is reached and its read, if issued, did not fail. |
| PassProperties.DescriptorReadIssued | examples/test.go:96-116 | ReadDescriptor(i, j, k) occurs exactly when descriptor discovery for (i, j) was issued and succeeded, and k is a listed position. |
| PassProperties.SubscribeIssued | examples/test.go:118-127 | SetNotifyValue(i, j) occurs exactly when the descriptors of (i, j) were listed and its properties include CharNotify or CharIndicate. |
| PassProperties.CharacteristicDiscoveryFailureIsLocal | examples/test.go:71-75 | After a failed characteristic discovery for service i, that discovery is the only call about service i. Every later service is still walked. |
| PassProperties.FailedReadSkipsRestOfCharacteristic | examples/test.go:86-91 | After a failed read of a readable characteristic, that read is the only call about the characteristic. |
| PassProperties.FailedDescriptorDiscoverySkipsReadsAndSubscribe | examples/test.go:96-100 | After a failed descriptor discovery, only the read and the discovery concern that characteristic. No descriptor read or subscribe follows. |
| PassProperties.EveryReachedCharacteristicIsVisited | examples/test.go:77-99 | Every listed characteristic of a listed service gets its first call, whatever happened to the characteristics before it. |
| PassProperties.PassFollowsDepthFirstOrder | examples/test.go:64-130 | Two calls before the cancel come in trace order exactly when they come in depth-first discovery order. |
| PassProperties.ServicesInDiscoveryOrder | examples/test.go:64-130 | Every call about service i precedes every call about a later service. |
| PassProperties.NoCallRepeats | examples/test.go:64-130 | No call occurs twice in a pass. Each reached read, descriptor discovery, descriptor read and subscribe is issued exactly once. |
| PassProperties.PassDependsOnlyOnDecisions | examples/test.go:110-126 | Two peripherals that differ only in descriptor-read outcomes, subscribe outcomes and UUIDs get the same pass. |
| PassProperties.ReadableNotifiableScenario | examples/test.go:58-127 | One service with one readable, notifiable characteristic and two descriptors gives the full ordered trace, ending in the cancel. |
| PassProperties.SecondServiceFailsScenario | examples/test.go:64-75 | When the second service's characteristic discovery fails, the first is walked fully. The second gets only its discovery call. The pass still ends in the cancel. |
| Connection.PassCounts | examples/test.go:52-58 | One pass cancels the connection exactly once and discovers services exactly once. |
| Connection.OnPeriphConnected | examples/test.go:44-48 | n rounds of the connection loop cancel the connection exactly n times and discover services exactly n times. They end with a cancel and never scan, connect or request an MTU. |
| Connection.ConnectErrorIgnored | examples/test.go:44-47 | The rounds are the same whatever connect error the library reported. |
| Connection.CancelsSeparateRounds | examples/test.go:45-62 | The loop's trace starts with DiscoverServices. Every cancel except the last is followed at once by the next round's DiscoverServices. Every later DiscoverServices comes right after the previous round's cancel. |

## Left out

- Printing and formatting (UUIDs, names, property strings, values, error
  texts; lines 18, 21, 39, 51, 55, 60, 65-69, 73, 78-83, 89, 92, 98, 103-107,
  112, 115, 124, 129, 131). They are output only.
- The five-second `time.Sleep` at line 132. It is wall-clock waiting with no
  decision in it.
- The `done` channel, `onPeriphDisconnected` and the wait in `main`
  (lines 15, 135-138, 159-160). They are concurrency and synchronisation.
- The notification callback and asynchronous notification delivery
  (lines 120-122). They print only and run concurrently.
- The endless loop at lines 45-47 is modelled for any finite number of
  rounds, not as a non-terminating computation.
- `flag.Parse`, the argument-count check, `gatt.NewDevice`, `d.Handle` and
  `d.Init` (lines 141-158). They are process bootstrap and library setup.
  `Filter.OnPeriphDiscovered` accepts any argument list and, like the code,
  looks only at the first argument.
- The gatt library itself (scanning, connecting, discovery, reads,
  subscriptions and which events it delivers when). Its outcomes are inputs
  stored in the GATT tree. Values read are not modelled because they are only
  printed.
- The nil UUID filters passed to the discover calls (lines 58, 71, 96). They
  always mean "all", so the calls carry no filter.
- Filter.ToUpper: upper-cases ASCII letters, dotless i and long s, the only
  characters whose upper case is ASCII. Go's `strings.ToUpper` also maps the
  other non-ASCII letters by Unicode case rules, to non-ASCII letters.
- Filter.OnPeriphDiscovered: exact whenever the peripheral's identity is
  ASCII, whatever the command-line argument holds. When the identity holds a
  non-ASCII letter, a match that differs from it only in case (such as "é"
  and "É") is ignored by the model, where the code connects.
- The property bit values (CharRead 0x02, CharNotify 0x10, CharIndicate 0x20)
  follow section 3.3.1.1 of Part G, Volume 3 of the Bluetooth Core
  Specification. The gatt library's constant declarations are not part of
  this model.

/**
 The adapter state monitor (`onStateChanged`): a PoweredOn adapter starts an
 unfiltered scan without duplicate reports, any other state stops scanning.
 */
module Adapter {
  import opened Gatt

  /** The calls issued in reaction to one adapter state change. */
  function OnStateChanged(s: State): (r: seq<Call>)
    ensures |r| == 1
    ensures r[0].Scan? <==> s == PoweredOn
    ensures r[0].Scan? ==> r[0].services == [] && !r[0].allowDuplicates
    ensures !r[0].Scan? ==> r[0] == StopScanning
  {
    match s
    case PoweredOn => [Scan([], false)]
    case _ => [StopScanning]
  }

  /**
   Whether a scan is running after the library has received the calls in
   `trace`: the latest Scan or StopScanning call decides, and nothing is
   running before the first one.
   */
  function Scanning(trace: seq<Call>): bool {
    if |trace| == 0 then false
    else match trace[|trace| - 1]
      case Scan(_, _) => true
      case StopScanning => false
      case _ => Scanning(trace[..|trace| - 1])
  }

  /** The calls issued in reaction to a sequence of adapter state changes. */
  function Reactions(states: seq<State>): seq<Call> {
    if |states| == 0 then []
    else Reactions(states[..|states| - 1]) + OnStateChanged(states[|states| - 1])
  }

  /** Appending calls that start or stop a scan lets the last of them decide. */
  lemma ScanningAppend(trace: seq<Call>, tail: seq<Call>)
    requires |tail| > 0 && (tail[|tail| - 1].Scan? || tail[|tail| - 1].StopScanning?)
    ensures Scanning(trace + tail) == tail[|tail| - 1].Scan?
  {
  }

  /**
   After any sequence of state changes a scan is running exactly when the
   latest state is PoweredOn; in every other state scanning has been stopped.
   */
  lemma {:induction false} ScanningFollowsLatestState(states: seq<State>)
    ensures Scanning(Reactions(states)) <==> |states| > 0 && states[|states| - 1] == PoweredOn
  {
    if |states| > 0 {
      var last := OnStateChanged(states[|states| - 1]);
      ScanningAppend(Reactions(states[..|states| - 1]), last);
    }
  }
}

/**
 The connection handler (`onPeriphConnected`): it runs enumeration passes in
 an endless loop, whatever error the library handed it. The model covers
 any finite number of rounds of that loop; round `n` sees the discovery
 results `rounds[n]`, since every pass discovers the hierarchy afresh.
 */
module Connection {
  import opened Gatt
  import opened Enumeration

  /** The error the library hands to the connection handler. */
  datatype ConnectError = NoError | ConnectFailed(reason: string)

  /** Number of occurrences of `x` in `r`. */
  function Count(r: seq<Call>, x: Call): nat {
    if |r| == 0 then 0
    else Count(r[..|r| - 1], x) + (if r[|r| - 1] == x then 1 else 0)
  }

  lemma {:induction false} CountAppend(r: seq<Call>, s: seq<Call>, x: Call)
    ensures Count(r + s, x) == Count(r, x) + Count(s, x)
    decreases |s|
  {
    if |s| > 0 {
      assert (r + s)[..|r + s| - 1] == r + s[..|s| - 1];
      CountAppend(r, s[..|s| - 1], x);
    } else {
      assert r + s == r;
    }
  }

  lemma {:induction false} CountAbsent(r: seq<Call>, x: Call)
    requires forall k :: 0 <= k < |r| ==> r[k] != x
    ensures Count(r, x) == 0
  {
    if |r| > 0 {
      CountAbsent(r[..|r| - 1], x);
    }
  }

  /** A pass cancels the connection once and discovers services once. */
  lemma PassCounts(p: Peripheral)
    ensures Count(Pass(p), CancelConnection(p.id)) == 1
    ensures Count(Pass(p), DiscoverServices) == 1
  {
    var r := Pass(p);
    var walk := r[..|r| - 1];
    assert r == walk + [r[|r| - 1]];
    CountAbsent(walk, CancelConnection(p.id));
    forall k | 1 <= k < |walk| ensures walk[k] != DiscoverServices {
      assert Before(walk[0], walk[k]);
    }
    assert walk == [walk[0]] + walk[1..];
    CountAbsent(walk[1..], DiscoverServices);
    CountAppend([walk[0]], walk[1..], DiscoverServices);
    CountAppend(walk, [r[|r| - 1]], CancelConnection(p.id));
    CountAppend(walk, [r[|r| - 1]], DiscoverServices);
  }

  /**
   The calls of the first |rounds| rounds of the loop at lines 45-47 for the
   peripheral with identity `id`. Every round starts with a service discovery
   and ends with its own cancel of the connection, so each round cancels
   exactly once; nothing here scans, connects or requests an MTU.
   */
  function OnPeriphConnected(id: string, err: ConnectError, rounds: seq<Discovery<Service>>): (r: seq<Call>)
    ensures Count(r, CancelConnection(id)) == |rounds|
    ensures Count(r, DiscoverServices) == |rounds|
    ensures |rounds| > 0 ==> |r| > 0 && r[|r| - 1] == CancelConnection(id)
    ensures forall k :: 0 <= k < |r| ==> r[k].IsEnumeration() || r[k] == CancelConnection(id)
  {
    if |rounds| == 0 then []
    else
      var earlier := OnPeriphConnected(id, err, rounds[..|rounds| - 1]);
      var p := Peripheral(id, rounds[|rounds| - 1]);
      PassCounts(p);
      CountAppend(earlier, Pass(p), CancelConnection(id));
      CountAppend(earlier, Pass(p), DiscoverServices);
      earlier + Pass(p)
  }

  /** The connect error is never consulted: the rounds are the same whether connecting failed or not. */
  lemma {:induction false} ConnectErrorIgnored(id: string, e1: ConnectError, e2: ConnectError, rounds: seq<Discovery<Service>>)
    ensures OnPeriphConnected(id, e1, rounds) == OnPeriphConnected(id, e2, rounds)
  {
    if |rounds| > 0 {
      ConnectErrorIgnored(id, e1, e2, rounds[..|rounds| - 1]);
    }
  }

  /** Only the first call of a pass discovers services. */
  lemma DiscoverServicesOpensPass(p: Peripheral, m: nat)
    requires 0 < m < |Pass(p)|
    ensures Pass(p)[m] != DiscoverServices
  {
    var r := Pass(p);
    if m < |r| - 1 {
      var walk := r[..|r| - 1];
      assert Before(walk[0], walk[m]);
    }
  }

  /**
   The rounds follow one another with nothing in between: the loop starts
   with a service discovery, every cancel but the last is followed at once
   by the next round's service discovery, and every later service discovery
   comes right after the previous round's cancel.
   */
  lemma {:induction false} CancelsSeparateRounds(id: string, err: ConnectError, rounds: seq<Discovery<Service>>, k: nat)
    requires k < |OnPeriphConnected(id, err, rounds)|
    ensures k == 0 ==> OnPeriphConnected(id, err, rounds)[0] == DiscoverServices
    ensures k + 1 < |OnPeriphConnected(id, err, rounds)| && OnPeriphConnected(id, err, rounds)[k] == CancelConnection(id)
        ==> OnPeriphConnected(id, err, rounds)[k + 1] == DiscoverServices
    ensures 0 < k && OnPeriphConnected(id, err, rounds)[k] == DiscoverServices
        ==> OnPeriphConnected(id, err, rounds)[k - 1] == CancelConnection(id)
  {
    var r := OnPeriphConnected(id, err, rounds);
    var earlier := OnPeriphConnected(id, err, rounds[..|rounds| - 1]);
    var pass := Pass(Peripheral(id, rounds[|rounds| - 1]));
    assert r == earlier + pass;
    if k < |earlier| {
      CancelsSeparateRounds(id, err, rounds[..|rounds| - 1], k);
      if k + 1 == |earlier| {
        assert r[k + 1] == pass[0];
      }
    } else {
      var m := k - |earlier|;
      assert r[k] == pass[m];
      if m > 0 {
        DiscoverServicesOpensPass(Peripheral(id, rounds[|rounds| - 1]), m);
        assert r[k - 1] == pass[m - 1];
      } else if 0 < k {
        assert |rounds[..|rounds| - 1]| > 0;
        assert r[k - 1] == earlier[|earlier| - 1];
      }
      if k + 1 < |r| {
        assert r[k + 1] == pass[m + 1];
      }
    }
  }
}

/**
 * Port-window scans of `zutils/src/network.rs`. Whether a port is free is
 * decided by a transient bind in the source; here it is the oracle
 * `available`, fixed for the duration of one scan. Ports are Rust `u16`
 * values, so every addition the source performs must stay below 65536.
 */
module Network {
  import opened Wrappers

  const MaxPort: nat := 0xFFFF
  const NoPortError: string := "Ran out of ports to search; none is available"

  /** Every port of `[start, start + count)` is available. */
  ghost predicate AllAvailable(available: nat -> bool, start: nat, count: nat) {
    forall p :: start <= p < start + count ==> available(p)
  }

  /** `found` is the least port of `[from, from + range)` that is available. */
  ghost predicate FirstAvailable(available: nat -> bool, from: nat, range: nat, found: nat) {
    && from <= found < from + range
    && available(found)
    && forall p :: from <= p < found ==> !available(p)
  }

  /** `start` is the least start in the window whose `count` ports are all available. */
  ghost predicate FirstContiguous(available: nat -> bool, from: nat, range: nat, count: nat, start: nat) {
    && from <= start < from + range
    && AllAvailable(available, start, count)
    && forall s :: from <= s < start ==> !AllAvailable(available, s, count)
  }

  /**
   * The ports the inner loop of `find_available_ports` probes for start `s`
   * from offset `k` on: `s + k`, `s + k + 1`, … up to and including the first
   * unavailable one, or up to `s + count - 1` when all are available.
   */
  ghost function StartProbes(available: nat -> bool, s: nat, k: nat, count: nat): seq<nat>
    requires k <= count
    decreases count - k
  {
    if k == count then []
    else if !available(s + k) then [s + k]
    else [s + k] + StartProbes(available, s, k + 1, count)
  }

  /**
   * The probes of one start are consecutive ports from `s + k`, at most
   * `count - k` of them, all available but the last; the last is unavailable
   * exactly when not all `count - k` ports are available.
   */
  lemma {:induction false} StartProbesShape(available: nat -> bool, s: nat, k: nat, count: nat)
    requires k <= count
    ensures var r := StartProbes(available, s, k, count);
            && |r| <= count - k
            && (forall i :: 0 <= i < |r| ==> r[i] == s + k + i)
            && (forall i :: 0 <= i < |r| - 1 ==> available(r[i]))
            && (AllAvailable(available, s + k, count - k) ==> |r| == count - k)
            && (!AllAvailable(available, s + k, count - k) ==> 0 < |r| && !available(r[|r| - 1]))
    decreases count - k
  {
    if k < count && available(s + k) {
      StartProbesShape(available, s, k + 1, count);
      assert !AllAvailable(available, s + k, count - k) ==> !AllAvailable(available, s + k + 1, count - k - 1);
    }
  }

  /**
   * The ports the whole scan of `find_available_ports` probes, trying the
   * starts `s`, `s + 1`, … below `end` in turn and stopping after the first
   * start whose ports are all available.
   */
  ghost function ScanProbes(available: nat -> bool, s: nat, end: nat, count: nat): seq<nat>
    decreases end - s
  {
    if s >= end then []
    else if AllAvailable(available, s, count) then StartProbes(available, s, 0, count)
    else StartProbes(available, s, 0, count) + ScanProbes(available, s + 1, end, count)
  }

  /** The probes of one start end at its first unavailable port. */
  lemma {:induction false} StartProbesUntil(available: nat -> bool, s: nat, k: nat, j: nat, count: nat)
    requires k <= j < count && AllAvailable(available, s + k, j - k) && !available(s + j)
    ensures |StartProbes(available, s, k, count)| == j - k + 1
    decreases j - k
  {
    if k < j {
      assert available(s + k);
      StartProbesUntil(available, s, k + 1, j, count);
    }
  }

  /** One start of the outer loop: its probes, then the later starts only if it failed. */
  lemma {:induction false} ScanProbesStep(available: nat -> bool, s: nat, end: nat, count: nat)
    requires s < end
    ensures ScanProbes(available, s, end, count)
            == StartProbes(available, s, 0, count)
               + (if AllAvailable(available, s, count) then [] else ScanProbes(available, s + 1, end, count))
  {
  }

  /** The probes of the starts `from`, …, `port - 1`, all of which failed. */
  ghost function ScannedSoFar(available: nat -> bool, from: nat, port: nat, count: nat): seq<nat>
    decreases port - from
  {
    if port <= from then [] else ScannedSoFar(available, from, port - 1, count) + StartProbes(available, port - 1, 0, count)
  }

  /** When no start before `port` succeeded, the scan is what it probed so far, then the scan from `port`. */
  lemma {:induction false} ScanProbesSplit(available: nat -> bool, from: nat, port: nat, end: nat, count: nat)
    requires from <= port <= end
    requires forall s :: from <= s < port ==> !AllAvailable(available, s, count)
    ensures ScanProbes(available, from, end, count)
            == ScannedSoFar(available, from, port, count) + ScanProbes(available, port, end, count)
    decreases port - from
  {
    if port > from {
      ScanProbesSplit(available, from, port - 1, end, count);
      ScanProbesStep(available, port - 1, end, count);
      assert !AllAvailable(available, port - 1, count);
      Regroup(ScanProbes(available, from, end, count), ScannedSoFar(available, from, port - 1, count),
              ScanProbes(available, port - 1, end, count), StartProbes(available, port - 1, 0, count),
              ScanProbes(available, port, end, count), ScannedSoFar(available, from, port, count));
    }
  }

  /** `x == a + y` and `y == t + z` regroup as `x == (a + t) + z`. */
  lemma {:induction false} Regroup(x: seq<nat>, a: seq<nat>, y: seq<nat>, t: seq<nat>, z: seq<nat>, w: seq<nat>)
    requires x == a + y && y == t + z && w == a + t
    ensures x == w + z
  {
  }

  /** The scan ends with the first start that succeeds. */
  lemma {:induction false} ScanProbesFound(available: nat -> bool, from: nat, port: nat, end: nat, count: nat)
    requires from <= port < end && AllAvailable(available, port, count)
    requires forall s :: from <= s < port ==> !AllAvailable(available, s, count)
    ensures ScanProbes(available, from, end, count) == ScannedSoFar(available, from, port + 1, count)
  {
    ScanProbesSplit(available, from, port, end, count);
    ScanProbesStep(available, port, end, count);
  }

  /** A scan in which every start fails probes every start in turn. */
  lemma {:induction false} ScanProbesExhausted(available: nat -> bool, from: nat, end: nat, count: nat)
    requires from <= end
    requires forall s :: from <= s < end ==> !AllAvailable(available, s, count)
    ensures ScanProbes(available, from, end, count) == ScannedSoFar(available, from, end, count)
  {
    ScanProbesSplit(available, from, end, end, count);
    assert ScanProbes(available, end, end, count) == [];
  }

  /** Every probe of the scan from `s` lies at or above `s` and below `end + count - 1`. */
  lemma {:induction false} ScanProbesBounds(available: nat -> bool, s: nat, end: nat, count: nat)
    ensures var ps := ScanProbes(available, s, end, count);
            forall i :: 0 <= i < |ps| ==> s <= ps[i] && ps[i] + 2 <= end + count
    decreases end - s
  {
    if s < end {
      StartProbesShape(available, s, 0, count);
      ScanProbesBounds(available, s + 1, end, count);
      ScanProbesStep(available, s, end, count);
    }
  }

  /** The probes of a whole scan stay in `[from, MaxPort]` and below `from + range + portsRequired - 1`. */
  lemma {:induction false} ScanProbesFit(available: nat -> bool, from: nat, range: nat, portsRequired: nat, ps: seq<nat>)
    requires range == 0 || from + range - 1 + portsRequired - 1 <= MaxPort
    requires ps == ScanProbes(available, from, from + range, portsRequired)
    ensures forall i :: 0 <= i < |ps| ==> from <= ps[i] <= MaxPort
    ensures forall i :: 0 <= i < |ps| ==> ps[i] + 2 <= from + range + portsRequired
  {
    ScanProbesBounds(available, from, from + range, portsRequired);
  }

  /**
   * The probes may reach past the window: with every port free, a window of
   * one start and three required ports probes `10`, `11` and `12`.
   */
  lemma {:induction false} ProbesPassWindow()
    ensures ScanProbes(p => true, 10, 11, 3) == [10, 11, 12]
  {
    assert AllAvailable(p => true, 10, 3);
    var r := StartProbes(p => true, 10, 0, 3);
    assert |r| == 3 && r[0] == 10 && r[1] == 11 && r[2] == 12;
  }

  /**
   * The inner loop of `find_available_ports`: probe `start`, `start + 1`, …
   * until a port is unavailable or `count` ports have been probed.
   */
  method ProbeRun(start: nat, count: nat, available: nat -> bool) returns (avail: bool, ghost probes: seq<nat>)
    ensures avail <==> AllAvailable(available, start, count)
    ensures probes == StartProbes(available, start, 0, count)
  {
    avail := true;
    probes := [];
    for incr := 0 to count
      invariant avail
      invariant AllAvailable(available, start, incr)
      invariant |probes| == incr && forall i :: 0 <= i < incr ==> probes[i] == start + i
    {
      probes := probes + [start + incr];
      if !available(start + incr) {
        avail := false;
        assert !AllAvailable(available, start, count);
        StartProbesShape(available, start, 0, count);
        StartProbesUntil(available, start, 0, incr, count);
        return;
      }
    }
    StartProbesShape(available, start, 0, count);
  }

  /** `find_available_port`: first fit over `[from, from + range)`. */
  method FindAvailablePort(from: nat, range: nat, available: nat -> bool) returns (r: Result<nat, string>)
    requires from + range <= MaxPort
    ensures r.Ok? ==> FirstAvailable(available, from, range, r.value)
    ensures r.Err? <==> forall p :: from <= p < from + range ==> !available(p)
    ensures r.Err? ==> r.error == NoPortError
  {
    for port := from to from + range
      invariant forall p :: from <= p < port ==> !available(p)
    {
      if available(port) {
        return Ok(port);
      }
    }
    return Err(NoPortError);
  }

  /**
   * `find_available_ports`: first start of the window whose `portsRequired`
   * consecutive ports are all available. `probes` lists, in order, the ports
   * the source passes to `is_port_available`.
   */
  method FindAvailablePorts(from: nat, range: nat, portsRequired: nat, available: nat -> bool)
    returns (r: Result<nat, string>, ghost probes: seq<nat>)
    requires from + range <= MaxPort
    requires range == 0 || from + range - 1 + portsRequired - 1 <= MaxPort
    ensures r.Ok? ==> FirstContiguous(available, from, range, portsRequired, r.value)
    ensures r.Err? <==> forall s :: from <= s < from + range ==> !AllAvailable(available, s, portsRequired)
    ensures r.Err? ==> r.error == NoPortError
    ensures portsRequired == 0 && range > 0 ==> r == Ok(from)
    ensures forall i :: 0 <= i < |probes| ==> from <= probes[i] <= MaxPort
    ensures forall i :: 0 <= i < |probes| ==> probes[i] + 2 <= from + range + portsRequired
    ensures probes == ScanProbes(available, from, from + range, portsRequired)
  {
    probes := [];
    for port := from to from + range
      invariant forall s :: from <= s < port ==> !AllAvailable(available, s, portsRequired)
      invariant probes == ScannedSoFar(available, from, port, portsRequired)
    {
      var avail, tried := ProbeRun(port, portsRequired, available);
      probes := probes + tried;
      if avail {
        assert portsRequired == 0 ==> AllAvailable(available, from, portsRequired);
        ScanProbesFound(available, from, port, from + range, portsRequired);
        ScanProbesFit(available, from, range, portsRequired, probes);
        return Ok(port), probes;
      }
    }
    assert range > 0 ==> AllAvailable(available, from, 0);
    ScanProbesExhausted(available, from, from + range, portsRequired);
    ScanProbesFit(available, from, range, portsRequired, probes);
    return Err(NoPortError), probes;
  }
}

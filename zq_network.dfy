/**
 * Port-window scans of `zqutils/src/network.rs`, a copy of the zutils scans
 * with the same loops; the specification predicates and the inner probe
 * loop, identical in both files, are shared with `Network`.
 */
module ZqNetwork {
  import opened Wrappers
  import opened Network

  /** `find_available_port`: first fit over `[from, from + range)`. */
  method FindAvailablePort(from: nat, range: nat, available: nat -> bool) returns (r: Result<nat, string>)
    requires from + range <= MaxPort
    ensures r.Ok? ==> FirstAvailable(available, from, range, r.value)
    ensures r.Err? <==> forall p :: from <= p < from + range ==> !available(p)
    ensures r.Err? ==> r.error == NoPortError
  {
    for port := from to from + range
      invariant forall p :: from <= p < port ==> !available(p)
    {
      if available(port) {
        return Ok(port);
      }
    }
    return Err(NoPortError);
  }

  /**
   * `find_available_ports`: first start of the window whose `portsRequired`
   * consecutive ports are all available. `probes` lists, in order, the ports
   * the source passes to `is_port_available`.
   */
  method FindAvailablePorts(from: nat, range: nat, portsRequired: nat, available: nat -> bool)
    returns (r: Result<nat, string>, ghost probes: seq<nat>)
    requires from + range <= MaxPort
    requires range == 0 || from + range - 1 + portsRequired - 1 <= MaxPort
    ensures r.Ok? ==> FirstContiguous(available, from, range, portsRequired, r.value)
    ensures r.Err? <==> forall s :: from <= s < from + range ==> !AllAvailable(available, s, portsRequired)
    ensures r.Err? ==> r.error == NoPortError
    ensures portsRequired == 0 && range > 0 ==> r == Ok(from)
    ensures forall i :: 0 <= i < |probes| ==> from <= probes[i] <= MaxPort
    ensures forall i :: 0 <= i < |probes| ==> probes[i] + 2 <= from + range + portsRequired
    ensures probes == ScanProbes(available, from, from + range, portsRequired)
  {
    probes := [];
    for port := from to from + range
      invariant forall s :: from <= s < port ==> !AllAvailable(available, s, portsRequired)
      invariant probes == ScannedSoFar(available, from, port, portsRequired)
    {
      var avail, tried := ProbeRun(port, portsRequired, available);
      probes := probes + tried;
      if avail {
        assert portsRequired == 0 ==> AllAvailable(available, from, portsRequired);
        ScanProbesFound(available, from, port, from + range, portsRequired);
        ScanProbesFit(available, from, range, portsRequired, probes);
        return Ok(port), probes;
      }
    }
    assert range > 0 ==> AllAvailable(available, from, 0);
    ScanProbesExhausted(available, from, from + range, portsRequired);
    ScanProbesFit(available, from, range, portsRequired, probes);
    return Err(NoPortError), probes;
  }
}

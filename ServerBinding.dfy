/** createServerFromPorts: try a caller-supplied server factory at each port of
    a candidate sequence, in order, and hand back the first server it builds. */
module ServerBinding {
  import opened Wrappers
  import PortRange

  /** What one call of the factory at (address, port) does: build a server or
      throw. The cause of a failure is not kept. */
  datatype Attempt<S> = Created(server: S) | Failed

  /** A server together with the port it was built at. */
  datatype Bound<S> = Bound(port: int, server: S)

  /** The position of the first port at which the factory builds a server. */
  function FirstBindable<S>(address: string, ports: seq<int>, create: (string, int) -> Attempt<S>): (k: Option<nat>)
    ensures k.Some? ==> k.value < |ports| && create(address, ports[k.value]).Created?
    ensures k.Some? ==> forall j :: 0 <= j < k.value ==> create(address, ports[j]).Failed?
    ensures k.None? ==> forall j :: 0 <= j < |ports| ==> create(address, ports[j]).Failed?
  {
    if |ports| == 0 then None
    else if create(address, ports[0]).Created? then Some(0)
    else
      match FirstBindable(address, ports[1..], create)
      case None => None
      case Some(k) => Some(k + 1)
  }

  /** What the binder returns: the server built at the first port that works,
      or a bind error when every port fails. */
  function BindOutcome<S>(address: string, ports: seq<int>, create: (string, int) -> Attempt<S>): Result<Bound<S>>
  {
    match FirstBindable(address, ports, create)
    case Some(k) => Ok(Bound(ports[k], create(address, ports[k]).server))
    case None => Err(Bind)
  }

  /** Walks the ports in order, calling the factory at each until one call
      builds a server; a failed call only moves on to the next port. */
  method CreateServerFromPorts<S>(address: string, ports: seq<int>, create: (string, int) -> Attempt<S>)
    returns (r: Result<Bound<S>>)
    ensures r.Ok? ==> r.value.port in ports && create(address, r.value.port) == Created(r.value.server)
    ensures r.Err? ==> r.error == Bind && forall p :: p in ports ==> create(address, p).Failed?
    ensures r == BindOutcome(address, ports, create)
  {
    var i := 0;
    while i < |ports|
      invariant 0 <= i <= |ports|
      invariant forall j :: 0 <= j < i ==> create(address, ports[j]).Failed?
      invariant FirstBindable(address, ports, create) == Skip(FirstBindable(address, ports[i..], create), i)
    {
      var attempt := create(address, ports[i]);
      if attempt.Created? {
        return Ok(Bound(ports[i], attempt.server));
      }
      assert ports[i..][1..] == ports[i + 1..];
      i := i + 1;
    }
    return Err(Bind);
  }

  /** Shifts a position found in a suffix back to the whole sequence. */
  function Skip(k: Option<nat>, n: nat): Option<nat>
  {
    match k
    case None => None
    case Some(j) => Some(j + n)
  }

  // ---------------------------------------------------------------- the documented scenarios

  /** A factory whose servers stand for the port they listen on and which
      throws at every port below t. */
  function ListeningFrom(t: int): (string, int) -> Attempt<int>
  {
    (address: string, port: int) => if port < t then Failed else Created(port)
  }

  /** A factory that throws at every port. */
  function NeverListening(): (string, int) -> Attempt<int>
  {
    (address: string, port: int) => Failed
  }

  /** Over an ascending range, the first port at which such a factory works is
      the threshold itself. */
  lemma {:induction false} FirstFromThreshold(address: string, lo: int, hi: int, t: int)
    requires lo <= t <= hi
    ensures FirstBindable(address, PortRange.Ascending(lo, hi), ListeningFrom(t)) == Some(t - lo)
    decreases t - lo
  {
    var ps := PortRange.Ascending(lo, hi);
    if lo < t {
      assert ps[1..] == PortRange.Ascending(lo + 1, hi);
      FirstFromThreshold(address, lo + 1, hi, t);
    }
  }

  /** When every port below t fails, the server is built at t, the first port
      of the range that works, and so lies within the range. */
  lemma ServerAtThreshold(address: string, lo: int, hi: int, t: int)
    requires lo <= t <= hi
    ensures BindOutcome(address, PortRange.Ascending(lo, hi), ListeningFrom(t)) == Ok(Bound(t, t))
  {
    FirstFromThreshold(address, lo, hi, t);
  }

  /** For any factory that throws at every port of [lo, hi] below t, a server
      handed back over the ascending range lies in [t, hi]; with t = lo this
      says that any server it hands back lies within the range. */
  lemma ServerWithinRange<S>(address: string, lo: int, hi: int, t: int, create: (string, int) -> Attempt<S>)
    requires forall p :: lo <= p < t ==> create(address, p).Failed?
    ensures BindOutcome(address, PortRange.Ascending(lo, hi), create).Ok? ==>
      var port := BindOutcome(address, PortRange.Ascending(lo, hi), create).value.port;
      lo <= port && t <= port <= hi
  {
    var ps := PortRange.Ascending(lo, hi);
    match FirstBindable(address, ps, create)
    case None =>
    case Some(k) =>
      assert ps[k] == lo + k;
      assert create(address, ps[k]).Created?;
  }

  /** With the "50000-50050" range: a factory that works everywhere gives a
      server at 50000, one that fails below 50010 gives one at 50010, and one
      that always fails gives a bind error. */
  lemma DocumentedScenarios(address: string)
    ensures PortRange.ParsePortRange("50000-50050") == Ok(PortRange.Ascending(50000, 50050))
    ensures BindOutcome(address, PortRange.Ascending(50000, 50050), ListeningFrom(50000)) == Ok(Bound(50000, 50000))
    ensures BindOutcome(address, PortRange.Ascending(50000, 50050), ListeningFrom(50010)) == Ok(Bound(50010, 50010))
    ensures BindOutcome(address, PortRange.Ascending(50000, 50050), NeverListening()) == Err(Bind)
  {
    PortRange.SingleRangeSpec();
    ServerAtThreshold(address, 50000, 50050, 50000);
    ServerAtThreshold(address, 50000, 50050, 50010);
  }
}

/** The values the collectors read from the operating system and from the
    libraries they call, and the interface filter decision shared by the
    smnet and netinfo collectors (plugins/inputs/smnet/smnet.go and
    plugins/inputs/netinfo/netinfo.go, Gather). */
module NetSource {
  import opened Wrappers
  import opened LinkProbe
  import opened IPMask
  import opened Protocols

  /** A net.Interface: index, MTU, name, hardware address (as its String()
      renders it), flags and the addresses Addrs() lists. */
  datatype Interface = Interface(index: int, mtu: int, name: string, mac: string,
                                 flags: Flags, addrs: seq<Addr>)

  /** The zero net.Interface, which a lookup of a missing name yields. */
  const ZeroInterface := Interface(0, 0, "", "", NoFlags, [])

  /** One IOCountersStat sample of NetIO. */
  datatype IOCounters = IOCounters(name: string, bytesSent: nat, bytesRecv: nat,
                                   packetsSent: nat, packetsRecv: nat,
                                   errIn: nat, errOut: nat, dropIn: nat, dropOut: nat)

  /** A compiled interface-name filter; the glob matching itself is not part
      of this model, only its verdict per name. */
  datatype Filter = Filter(accepts: string -> bool)

  /** Everything one poll reads from outside: NetIO, what filter.Compile
      returns for a non-empty pattern list, net.Interfaces, the lines
      `route -n` prints, the ethtool answers per interface (a missing entry
      is a failed query) and NetProto. */
  datatype Host = Host(
    netIO: Result<seq<IOCounters>, string>,
    compiled: Result<Filter, string>,
    interfaces: Result<seq<Interface>, string>,
    routeOutput: seq<string>,
    linkState: map<string, nat>,
    linkModes: map<string, map<string, nat>>,
    netProto: Result<seq<NetProto>, string>)

  /** The three errors that abort a poll. */
  datatype GatherError = NetIOError(msg: string) | CompileError(msg: string) | InterfacesError(msg: string)

  /** filter.Compile(patterns): an empty list gives no filter and no error;
      otherwise the library's outcome. */
  function Compile(patterns: seq<string>, outcome: Result<Filter, string>): (r: Result<Option<Filter>, string>)
    ensures |patterns| == 0 ==> r == Success(None)
    ensures |patterns| > 0 && r.Success? ==> r.value.Some?
    ensures |patterns| > 0 ==> (r.Failure? <==> outcome.Failure?)
    ensures |patterns| > 0 && r.Success? ==> r.value == Some(outcome.value)
    ensures |patterns| > 0 && r.Failure? ==> r.error == outcome.error
  {
    if |patterns| == 0 then Success(None)
    else match outcome
      case Success(f) => Success(Some(f))
      case Failure(e) => Failure(e)
  }

  /** interfacesByName: the map the enumeration loop fills, a later interface
      of the same name replacing an earlier one. */
  function ByName(ifaces: seq<Interface>): (m: map<string, Interface>)
    ensures forall n :: n in m ==> m[n].name == n && m[n] in ifaces
    ensures forall i :: 0 <= i < |ifaces| ==> ifaces[i].name in m
    decreases |ifaces|
  {
    if |ifaces| == 0 then map[]
    else
      var m := ByName(ifaces[..|ifaces| - 1]);
      var last := ifaces[|ifaces| - 1];
      assert forall i :: 0 <= i < |ifaces| - 1 ==> ifaces[..|ifaces| - 1][i] == ifaces[i];
      m[last.name := last]
  }

  /** Last wins: the entry for a name is the last interface of that name. */
  lemma {:induction false} ByNameLastWins(ifaces: seq<Interface>, j: nat)
    requires j < |ifaces|
    requires forall k :: j < k < |ifaces| ==> ifaces[k].name != ifaces[j].name
    ensures ByName(ifaces)[ifaces[j].name] == ifaces[j]
    decreases |ifaces|
  {
    if j < |ifaces| - 1 {
      var init := ifaces[..|ifaces| - 1];
      assert init[j] == ifaces[j];
      forall k | j < k < |init| ensures init[k].name != init[j].name {
        assert init[k] == ifaces[k];
      }
      ByNameLastWins(init, j);
    }
  }

  /** The loop that fills interfacesByName. */
  method IndexByName(ifaces: seq<Interface>) returns (m: map<string, Interface>)
    ensures m == ByName(ifaces)
  {
    m := map[];
    for i := 0 to |ifaces|
      invariant m == ByName(ifaces[..i])
    {
      assert ifaces[..i + 1][..i] == ifaces[..i];
      m := m[ifaces[i].name := ifaces[i]];
    }
    assert ifaces[..|ifaces|] == ifaces;
  }

  /** What decides, in one poll, which samples are reported. */
  datatype Policy = Policy(allowList: seq<string>, filter: Option<Filter>, skipChecks: bool,
                           byName: map<string, Interface>)

  /** The filter decision for one sample name: with an allow-list only the
      filter's verdict counts; otherwise, unless checks are skipped, the
      name must be enumerated, not loopback, and up. */
  predicate Reported(p: Policy, name: string)
  {
    if |p.allowList| != 0 then
      p.filter.Some? && p.filter.value.accepts(name)
    else if !p.skipChecks then
      name in p.byName && !p.byName[name].flags.loopback && p.byName[name].flags.up
    else
      true
  }

  /** The samples the loop over netio reports, in order. */
  function Accepted(p: Policy, samples: seq<IOCounters>): (r: seq<IOCounters>)
    ensures |r| <= |samples|
    ensures forall x :: x in r ==> x in samples && Reported(p, x.name)
    decreases |samples|
  {
    if |samples| == 0 then []
    else
      var last := samples[|samples| - 1];
      Accepted(p, samples[..|samples| - 1]) + (if Reported(p, last.name) then [last] else [])
  }

  /** Exactly one report per reported sample: a sample occurs among the
      accepted ones as often as among all samples when its name passes the
      filter decision, and not at all otherwise. */
  lemma {:induction false} AcceptedCount(p: Policy, samples: seq<IOCounters>, x: IOCounters)
    ensures multiset(Accepted(p, samples))[x] == if Reported(p, x.name) then multiset(samples)[x] else 0
    decreases |samples|
  {
    if |samples| > 0 {
      var init, last := samples[..|samples| - 1], samples[|samples| - 1];
      AcceptedCount(p, init, x);
      assert samples == init + [last];
    }
  }

  /** A sample is reported exactly when it passes the filter decision. */
  lemma AcceptedMembership(p: Policy, samples: seq<IOCounters>, x: IOCounters)
    ensures x in Accepted(p, samples) <==> x in samples && Reported(p, x.name)
  {
    AcceptedCount(p, samples, x);
    assert x in Accepted(p, samples) <==> multiset(Accepted(p, samples))[x] > 0;
  }

  /** Allow-list mode: a sample is reported exactly when the filter accepts
      its name; flags and enumeration play no part. */
  lemma AllowListMode(p: Policy, samples: seq<IOCounters>, x: IOCounters)
    requires |p.allowList| != 0 && p.filter.Some? && x in samples
    ensures x in Accepted(p, samples) <==> p.filter.value.accepts(x.name)
  {
    AcceptedMembership(p, samples, x);
  }

  /** Default mode: a sample is reported exactly when its interface is
      enumerated, not loopback, and up. */
  lemma DefaultMode(p: Policy, samples: seq<IOCounters>, x: IOCounters)
    requires |p.allowList| == 0 && !p.skipChecks && x in samples
    ensures x in Accepted(p, samples) <==>
              x.name in p.byName && !p.byName[x.name].flags.loopback && p.byName[x.name].flags.up
  {
    AcceptedMembership(p, samples, x);
  }

  /** With the checks skipped and no allow-list every sample is reported, in
      order. */
  lemma {:induction false} SkipChecksMode(p: Policy, samples: seq<IOCounters>)
    requires |p.allowList| == 0 && p.skipChecks
    ensures Accepted(p, samples) == samples
    decreases |samples|
  {
    if |samples| > 0 {
      SkipChecksMode(p, samples[..|samples| - 1]);
      assert samples == samples[..|samples| - 1] + [samples[|samples| - 1]];
    }
  }

  /** The interface record of a sample is built from the enumerated
      interface of that name, or from the zero interface. */
  function InterfaceOf(byName: map<string, Interface>, name: string): Interface
  {
    if name in byName then byName[name] else ZeroInterface
  }

  /** The outcome of the compile step in a poll that got past NetIO: the
      filter is compiled only while none is stored. */
  function CompileStep(stored: Option<Filter>, patterns: seq<string>, host: Host): Result<Option<Filter>, string>
  {
    if stored.None? then Compile(patterns, host.compiled) else Success(stored)
  }
}

/** The smnet collector (plugins/inputs/smnet/smnet.go): one poll reads the
    traffic counters, compiles the interface filter on first use, lists the
    interfaces, and reports one counter record per selected sample, enriched
    with address, netmask, gateway, admin status, link state and speed,
    followed by one protocol record unless protocol statistics are ignored. */
module SMNet {
  import opened Wrappers
  import opened Metrics
  import opened LinkProbe
  import opened IPMask
  import opened Routes
  import opened Protocols
  import opened NetSource

  /** The interface a sample is reported from has a first dotted address
      that parses as CIDR, or none: ParseIPMask panics otherwise. */
  predicate SampleParses(byName: map<string, Interface>, io: IOCounters)
  {
    Parses(InterfaceOf(byName, io.name).addrs)
  }

  /** Every sample of `samples` can be reported without a panic. */
  predicate SamplesParse(byName: map<string, Interface>, samples: seq<IOCounters>)
  {
    forall io :: io in samples ==> SampleParses(byName, io)
  }

  /** What a poll needs of its inputs: ParseIPMask runs only for the samples
      the filter decision reports, after the `continue`s of the sample loop,
      so only their interfaces must have parsable addresses. */
  predicate ReportedParse(p: Policy, netio: seq<IOCounters>)
  {
    forall io :: io in netio && Reported(p, io.name) ==> SampleParses(p.byName, io)
  }

  /** The answer of ethtool's LinkState for `name`, absent when it failed. */
  function LinkStateOf(host: Host, name: string): Option<nat>
  {
    if name in host.linkState then Some(host.linkState[name]) else None
  }

  /** The answer of ethtool's CmdGetMapped for `name`, absent when it failed. */
  function LinkModesOf(host: Host, name: string): Option<map<string, nat>>
  {
    if name in host.linkModes then Some(host.linkModes[name]) else None
  }

  /** The tags of an interface record. */
  function InterfaceTags(name: string): map<string, string>
  {
    map["interface" := name]
  }

  /** The eighteen fields of an smnet interface record. */
  function InterfaceFields(io: IOCounters, iface: Interface, ip: IPStatus, gateway: string,
                           admin: nat, run: RunStatus): map<string, Value>
  {
    map[
      "index" := Int(iface.index), "name" := Str(iface.name), "mtu" := Int(iface.mtu),
      "speed" := Int(run.speed), "ip" := Str(ip.ip), "net_mask" := Str(ip.mask),
      "gateway" := Str(gateway), "mac" := Str(iface.mac),
      "admin_status" := Int(admin), "run_status" := Int(run.runStatus),
      "bytes_sent" := Int(io.bytesSent), "bytes_recv" := Int(io.bytesRecv),
      "packets_sent" := Int(io.packetsSent), "packets_recv" := Int(io.packetsRecv),
      "err_in" := Int(io.errIn), "err_out" := Int(io.errOut),
      "drop_in" := Int(io.dropIn), "drop_out" := Int(io.dropOut)]
  }

  /** The counter record reported for one selected sample. */
  function InterfaceRecord(host: Host, byName: map<string, Interface>, io: IOCounters): Metric
    requires SampleParses(byName, io)
  {
    var t := InterfaceOf(byName, io.name);
    var fields := InterfaceFields(io, t, IPMaskOf(t.addrs), GatewayOf(host.routeOutput, io.name),
                                  AdminStatus(FlagsString(t.flags)),
                                  ReadRunStatus(LinkStateOf(host, io.name), LinkModesOf(host, io.name)));
    Metric(Counter, "smnet", fields, InterfaceTags(io.name))
  }

  /** The records of the selected samples, one each, in order. */
  function InterfaceRecords(host: Host, byName: map<string, Interface>, samples: seq<IOCounters>): (rs: seq<Metric>)
    requires SamplesParse(byName, samples)
    ensures |rs| == |samples|
    decreases |samples|
  {
    if |samples| == 0 then []
    else
      var init := samples[..|samples| - 1];
      assert SamplesParse(byName, init) by {
        forall x | x in init ensures SampleParses(byName, x) {
          var j :| 0 <= j < |init| && init[j] == x;
          assert samples[j] == x;
        }
      }
      InterfaceRecords(host, byName, init) + [InterfaceRecord(host, byName, samples[|samples| - 1])]
  }

  /** Reporting one more sample appends its record. */
  lemma RecordsSnoc(host: Host, byName: map<string, Interface>, samples: seq<IOCounters>, io: IOCounters)
    requires SamplesParse(byName, samples) && SampleParses(byName, io)
    ensures InterfaceRecords(host, byName, samples + [io]) ==
            InterfaceRecords(host, byName, samples) + [InterfaceRecord(host, byName, io)]
  {
    assert (samples + [io])[..|samples|] == samples;
  }

  /** The samples accepted from one more sample of netio. */
  lemma AcceptedStep(policy: Policy, netio: seq<IOCounters>, k: nat)
    requires k < |netio|
    ensures Accepted(policy, netio[..k + 1]) ==
            Accepted(policy, netio[..k]) + (if Reported(policy, netio[k].name) then [netio[k]] else [])
  {
    assert netio[..k + 1][..k] == netio[..k];
  }

  /** The records of the samples accepted from one more sample of netio. */
  lemma RecordsStep(host: Host, policy: Policy, netio: seq<IOCounters>, k: nat)
    requires ReportedParse(policy, netio) && k < |netio|
    ensures Reported(policy, netio[k].name) ==>
              InterfaceRecords(host, policy.byName, Accepted(policy, netio[..k + 1])) ==
              InterfaceRecords(host, policy.byName, Accepted(policy, netio[..k])) +
              [InterfaceRecord(host, policy.byName, netio[k])]
    ensures !Reported(policy, netio[k].name) ==>
              InterfaceRecords(host, policy.byName, Accepted(policy, netio[..k + 1])) ==
              InterfaceRecords(host, policy.byName, Accepted(policy, netio[..k]))
  {
    AcceptedStep(policy, netio, k);
    if Reported(policy, netio[k].name) {
      RecordsSnoc(host, policy.byName, Accepted(policy, netio[..k]), netio[k]);
    } else {
      assert Accepted(policy, netio[..k + 1]) == Accepted(policy, netio[..k]);
    }
  }

  /** An interface record is a counter record named "smnet", tagged with
      the interface, that reports the index, name, MTU and hardware address
      of the interface of that name (the zero interface when there is none)
      and copies the sample's counters unchanged. */
  lemma InterfaceRecordCounters(host: Host, byName: map<string, Interface>, io: IOCounters)
    requires SampleParses(byName, io)
    ensures var r := InterfaceRecord(host, byName, io);
            && r.kind == Counter && r.name == "smnet" && r.tags == map["interface" := io.name]
            && r.fields["index"] == Int(InterfaceOf(byName, io.name).index)
            && r.fields["name"] == Str(InterfaceOf(byName, io.name).name)
            && r.fields["mtu"] == Int(InterfaceOf(byName, io.name).mtu)
            && r.fields["mac"] == Str(InterfaceOf(byName, io.name).mac)
            && r.fields["bytes_sent"] == Int(io.bytesSent) && r.fields["bytes_recv"] == Int(io.bytesRecv)
            && r.fields["packets_sent"] == Int(io.packetsSent) && r.fields["packets_recv"] == Int(io.packetsRecv)
            && r.fields["err_in"] == Int(io.errIn) && r.fields["err_out"] == Int(io.errOut)
            && r.fields["drop_in"] == Int(io.dropIn) && r.fields["drop_out"] == Int(io.dropOut)
  {
    var t := InterfaceOf(byName, io.name);
    var ip := IPMaskOf(t.addrs);
    var gateway := GatewayOf(host.routeOutput, io.name);
    var admin := AdminStatus(FlagsString(t.flags));
    var run := ReadRunStatus(LinkStateOf(host, io.name), LinkModesOf(host, io.name));
    assert InterfaceRecord(host, byName, io) ==
           Metric(Counter, "smnet", InterfaceFields(io, t, ip, gateway, admin, run), InterfaceTags(io.name));
    CounterFieldsFacts(io, t, ip, gateway, admin, run);
    IdentityFieldsFacts(io, t, ip, gateway, admin, run);
  }

  /** The probed fields of an interface record: admin status 1 exactly for
      an up interface; the run status is LinkState's answer, or 0 when that
      query failed; the speed is the mapped "speed" entry, or 0 when that
      query failed, has no such entry or answered the unknown sentinel; and
      the gateway and address of the interface. */
  lemma InterfaceRecordProbes(host: Host, byName: map<string, Interface>, io: IOCounters)
    requires SampleParses(byName, io)
    ensures var r := InterfaceRecord(host, byName, io);
            var t := InterfaceOf(byName, io.name);
            && r.fields["admin_status"] == Int(if t.flags.up then 1 else 0)
            && r.fields["gateway"] == Str(GatewayOf(host.routeOutput, io.name))
            && r.fields["ip"] == Str(IPMaskOf(t.addrs).ip)
            && r.fields["net_mask"] == Str(IPMaskOf(t.addrs).mask)
            && (io.name in host.linkState ==> r.fields["run_status"] == Int(host.linkState[io.name]))
            && (io.name !in host.linkState ==> r.fields["run_status"] == Int(0))
            && (io.name in host.linkModes && "speed" in host.linkModes[io.name] &&
                host.linkModes[io.name]["speed"] != SpeedUnknown
                ==> r.fields["speed"] == Int(host.linkModes[io.name]["speed"]))
            && (io.name !in host.linkModes ==> r.fields["speed"] == Int(0))
            && (io.name in host.linkModes && "speed" !in host.linkModes[io.name] ==> r.fields["speed"] == Int(0))
            && (io.name in host.linkModes && "speed" in host.linkModes[io.name] &&
                host.linkModes[io.name]["speed"] == SpeedUnknown
                ==> r.fields["speed"] == Int(0))
  {
    var t := InterfaceOf(byName, io.name);
    var ip := IPMaskOf(t.addrs);
    var gateway := GatewayOf(host.routeOutput, io.name);
    var admin := AdminStatus(FlagsString(t.flags));
    var run := ReadRunStatus(LinkStateOf(host, io.name), LinkModesOf(host, io.name));
    AdminStatusIsUpFlag(t.flags);
    assert InterfaceRecord(host, byName, io) ==
           Metric(Counter, "smnet", InterfaceFields(io, t, ip, gateway, admin, run), InterfaceTags(io.name));
    ProbeFieldsFacts(io, t, ip, gateway, admin, run);
    AddressFieldsFacts(io, t, ip, gateway, admin, run);
  }

  /** Where the counters land among the fields of an interface record. */
  lemma CounterFieldsFacts(io: IOCounters, iface: Interface, ip: IPStatus, gateway: string, admin: nat, run: RunStatus)
    ensures var f := InterfaceFields(io, iface, ip, gateway, admin, run);
            && f["bytes_sent"] == Int(io.bytesSent) && f["bytes_recv"] == Int(io.bytesRecv)
            && f["packets_sent"] == Int(io.packetsSent) && f["packets_recv"] == Int(io.packetsRecv)
            && f["err_in"] == Int(io.errIn) && f["err_out"] == Int(io.errOut)
            && f["drop_in"] == Int(io.dropIn) && f["drop_out"] == Int(io.dropOut)
  {
  }

  /** Where the interface's identity lands among the fields of an interface
      record. */
  lemma IdentityFieldsFacts(io: IOCounters, iface: Interface, ip: IPStatus, gateway: string, admin: nat, run: RunStatus)
    ensures var f := InterfaceFields(io, iface, ip, gateway, admin, run);
            && f["index"] == Int(iface.index) && f["name"] == Str(iface.name)
            && f["mtu"] == Int(iface.mtu) && f["mac"] == Str(iface.mac)
  {
  }

  /** Where the link and admin states land among the fields of an interface
      record. */
  lemma ProbeFieldsFacts(io: IOCounters, iface: Interface, ip: IPStatus, gateway: string, admin: nat, run: RunStatus)
    ensures var f := InterfaceFields(io, iface, ip, gateway, admin, run);
            && f["admin_status"] == Int(admin) && f["run_status"] == Int(run.runStatus)
            && f["speed"] == Int(run.speed)
  {
  }

  /** Where the address and gateway land among the fields of an interface
      record. */
  lemma AddressFieldsFacts(io: IOCounters, iface: Interface, ip: IPStatus, gateway: string, admin: nat, run: RunStatus)
    ensures var f := InterfaceFields(io, iface, ip, gateway, admin, run);
            && f["gateway"] == Str(gateway) && f["ip"] == Str(ip.ip) && f["net_mask"] == Str(ip.mask)
  {
  }

  /** The record of one selected sample: the interface of that name, its
      address and netmask, admin status, gateway and link state, and the
      sample's counters. */
  method ReportSample(host: Host, byName: map<string, Interface>, io: IOCounters) returns (record: Metric)
    requires SampleParses(byName, io)
    ensures record == InterfaceRecord(host, byName, io)
  {
    var tiface := InterfaceOf(byName, io.name);
    var ipstatus := ParseIPMask(tiface.addrs);
    var adminStatus := AdminStatus(FlagsString(tiface.flags));
    var gateway := ReadGateways(io.name, host.routeOutput);
    var instates := ReadRunStatus(LinkStateOf(host, io.name), LinkModesOf(host, io.name));
    var fields := InterfaceFields(io, tiface, ipstatus, gateway, adminStatus, instates);
    record := Metric(Counter, "smnet", fields, InterfaceTags(io.name));
  }

  /** ReportedParse for the poll that `host` drives, when it gets as far as
      the sample loop: with the filter the compile step leaves and the
      interfaces enumerated. */
  predicate PollParses(stored: Option<Filter>, allowList: seq<string>, skipChecks: bool, host: Host)
  {
    host.netIO.Success? && CompileStep(stored, allowList, host).Success? && host.interfaces.Success? ==>
      ReportedParse(Policy(allowList, CompileStep(stored, allowList, host).value, skipChecks,
                           ByName(host.interfaces.value)), host.netIO.value)
  }

  /** The smnet collector instance. */
  class SMNetIOStats {
    var filter: Option<Filter>
    const skipChecks: bool
    const ignoreProtocolStats: bool
    const interfaces: seq<string>
    /** How many times filter.Compile has been called. */
    ghost var compiles: nat

    constructor (interfaces: seq<string>, skipChecks: bool, ignoreProtocolStats: bool)
      ensures this.interfaces == interfaces && this.skipChecks == skipChecks
      ensures this.ignoreProtocolStats == ignoreProtocolStats
      ensures filter.None? && compiles == 0
    {
      this.interfaces := interfaces;
      this.skipChecks := skipChecks;
      this.ignoreProtocolStats := ignoreProtocolStats;
      filter := None;
      compiles := 0;
    }

    /** The loop over netio: the filter decision for each sample (allow-list
        verdict, or enumerated, not loopback and up unless checks are
        skipped), then the enriched counter record of each selected one. */
    method ReportSamples(host: Host, byName: map<string, Interface>, netio: seq<IOCounters>)
      returns (out: seq<Metric>)
      requires ReportedParse(Policy(interfaces, filter, skipChecks, byName), netio)
      requires |interfaces| != 0 ==> filter.Some?
      ensures out == InterfaceRecords(host, byName, Accepted(Policy(interfaces, filter, skipChecks, byName), netio))
    {
      ghost var policy := Policy(interfaces, filter, skipChecks, byName);
      out := [];
      for k := 0 to |netio|
        invariant out == InterfaceRecords(host, byName, Accepted(policy, netio[..k]))
      {
        var io := netio[k];
        RecordsStep(host, policy, netio, k);
        if |interfaces| != 0 {
          var found := false;
          if filter.value.accepts(io.name) {
            found := true;
          }
          if !found {
            continue;
          }
        } else if !skipChecks {
          if io.name !in byName {
            continue;
          }
          var iface := byName[io.name];
          if iface.flags.loopback {
            continue;
          }
          if !iface.flags.up {
            continue;
          }
        }
        var record := ReportSample(host, byName, io);
        out := out + [record];
      }
      assert netio[..|netio|] == netio;
    }

    /** One poll. Errors come in source order (counters, filter, interface
        list) and each leaves no record; the filter is compiled only while
        none is stored; on success the records are one per selected sample,
        in sample order, then the protocol record. */
    method Gather(host: Host) returns (err: Option<GatherError>, out: seq<Metric>)
      requires PollParses(filter, interfaces, skipChecks, host)
      modifies this
      ensures host.netIO.Failure? ==>
                err == Some(NetIOError(host.netIO.error)) && out == [] &&
                filter == old(filter) && compiles == old(compiles)
      ensures host.netIO.Success? ==>
                compiles == old(compiles) + (if old(filter).None? then 1 else 0)
      ensures host.netIO.Success? && CompileStep(old(filter), interfaces, host).Failure? ==>
                err == Some(CompileError(CompileStep(old(filter), interfaces, host).error)) && out == [] &&
                filter.None?
      ensures host.netIO.Success? && CompileStep(old(filter), interfaces, host).Success? ==>
                filter == CompileStep(old(filter), interfaces, host).value
      ensures host.netIO.Success? && CompileStep(old(filter), interfaces, host).Success? &&
              host.interfaces.Failure? ==>
                err == Some(InterfacesError(host.interfaces.error)) && out == []
      ensures err.None? <==>
                host.netIO.Success? && CompileStep(old(filter), interfaces, host).Success? &&
                host.interfaces.Success?
      ensures err.None? && |interfaces| != 0 ==> filter.Some?
      ensures err.None? ==>
                var byName := ByName(host.interfaces.value);
                var accepted := Accepted(Policy(interfaces, filter, skipChecks, byName), host.netIO.value);
                && ReportedParse(Policy(interfaces, filter, skipChecks, byName), host.netIO.value)
                && |accepted| <= |out|
                && out[..|accepted|] == InterfaceRecords(host, byName, accepted)
                && ProtocolRecords(ignoreProtocolStats, host.netProto, out[|accepted|..])
    {
      out := [];
      if host.netIO.Failure? {
        err := Some(NetIOError(host.netIO.error));
        return;
      }
      var netio := host.netIO.value;

      if filter.None? {
        compiles := compiles + 1;
        var compiled := Compile(interfaces, host.compiled);
        if compiled.Failure? {
          filter := None;
          err := Some(CompileError(compiled.error));
          return;
        }
        filter := compiled.value;
      }

      if host.interfaces.Failure? {
        err := Some(InterfacesError(host.interfaces.error));
        return;
      }
      var byName := IndexByName(host.interfaces.value);
      assert |interfaces| != 0 ==> filter.Some?;
      out := ReportSamples(host, byName, netio);
      ghost var n := |out|;
      var protocolRecords := ProtocolStep(ignoreProtocolStats, host.netProto);
      out := out + protocolRecords;
      assert out[n..] == protocolRecords;
      err := None;
    }
  }
}

/** The netinfo collector (plugins/inputs/netinfo/netinfo.go): the same poll
    and filter decision as smnet, but the enrichment fields (speed, address,
    netmask, gateway, admin and run state) are the constant 0. */
module NetInfo {
  import opened Wrappers
  import opened Metrics
  import opened Protocols
  import opened NetSource

  /** The fields of a netinfo interface record. */
  function InterfaceFields(io: IOCounters, iface: Interface): map<string, Value>
  {
    map[
      "index" := Int(iface.index), "name" := Str(iface.name), "mtu" := Int(iface.mtu),
      "speed" := Int(0), "ip" := Int(0), "net_mask" := Int(0), "gateway" := Int(0),
      "mac" := Str(iface.mac), "admin_Status" := Int(0), "run_state" := Int(0),
      "bytes_sent" := Int(io.bytesSent), "bytes_recv" := Int(io.bytesRecv),
      "packets_sent" := Int(io.packetsSent), "packets_recv" := Int(io.packetsRecv),
      "err_in" := Int(io.errIn), "err_out" := Int(io.errOut),
      "drop_in" := Int(io.dropIn), "drop_out" := Int(io.dropOut)]
  }

  /** The counter record reported for one selected sample. */
  function InterfaceRecord(byName: map<string, Interface>, io: IOCounters): Metric
  {
    Metric(Counter, "smnet", InterfaceFields(io, InterfaceOf(byName, io.name)), map["interface" := io.name])
  }

  /** The records of the selected samples, one each, in order. */
  function InterfaceRecords(byName: map<string, Interface>, samples: seq<IOCounters>): (rs: seq<Metric>)
    ensures |rs| == |samples|
    ensures forall i :: 0 <= i < |samples| ==> rs[i] == InterfaceRecord(byName, samples[i])
  {
    seq(|samples|, i requires 0 <= i < |samples| => InterfaceRecord(byName, samples[i]))
  }

  /** A netinfo record is a counter record named "smnet", tagged with the
      interface, that reports 0 for speed, ip, net_mask, gateway,
      admin_Status and run_state. */
  lemma InterfaceRecordFacts(byName: map<string, Interface>, io: IOCounters)
    ensures var r := InterfaceRecord(byName, io);
            && r.kind == Counter && r.name == "smnet" && r.tags == map["interface" := io.name]
            && r.fields["speed"] == Int(0) && r.fields["ip"] == Int(0)
            && r.fields["net_mask"] == Int(0) && r.fields["gateway"] == Int(0)
            && r.fields["admin_Status"] == Int(0) && r.fields["run_state"] == Int(0)
  {
  }

  /** A netinfo record copies the sample's counters unchanged. */
  lemma InterfaceRecordCounters(byName: map<string, Interface>, io: IOCounters)
    ensures var f := InterfaceRecord(byName, io).fields;
            && f["bytes_sent"] == Int(io.bytesSent) && f["bytes_recv"] == Int(io.bytesRecv)
            && f["packets_sent"] == Int(io.packetsSent) && f["packets_recv"] == Int(io.packetsRecv)
            && f["err_in"] == Int(io.errIn) && f["err_out"] == Int(io.errOut)
            && f["drop_in"] == Int(io.dropIn) && f["drop_out"] == Int(io.dropOut)
  {
  }

  /** A sample whose name is not enumerated (possible in allow-list mode)
      is reported with the zero interface: index, name and mtu zero, no
      hardware address. */
  lemma MissingInterfaceIsZero(byName: map<string, Interface>, io: IOCounters)
    requires io.name !in byName
    ensures var r := InterfaceRecord(byName, io);
            && r.fields["index"] == Int(0) && r.fields["name"] == Str("")
            && r.fields["mtu"] == Int(0) && r.fields["mac"] == Str("")
  {
  }

  /** Reporting one more sample appends its record. */
  lemma RecordsStep(byName: map<string, Interface>, policy: Policy, netio: seq<IOCounters>, k: nat)
    requires k < |netio|
    ensures Reported(policy, netio[k].name) ==>
              InterfaceRecords(byName, Accepted(policy, netio[..k + 1])) ==
              InterfaceRecords(byName, Accepted(policy, netio[..k])) + [InterfaceRecord(byName, netio[k])]
    ensures !Reported(policy, netio[k].name) ==>
              InterfaceRecords(byName, Accepted(policy, netio[..k + 1])) ==
              InterfaceRecords(byName, Accepted(policy, netio[..k]))
  {
    assert netio[..k + 1][..k] == netio[..k];
    if !Reported(policy, netio[k].name) {
      assert Accepted(policy, netio[..k + 1]) == Accepted(policy, netio[..k]);
    }
  }

  /** The netinfo collector instance. */
  class SMNetIOStats {
    var filter: Option<Filter>
    const skipChecks: bool
    const ignoreProtocolStats: bool
    const interfaces: seq<string>
    /** How many times filter.Compile has been called. */
    ghost var compiles: nat

    constructor (interfaces: seq<string>, skipChecks: bool, ignoreProtocolStats: bool)
      ensures this.interfaces == interfaces && this.skipChecks == skipChecks
      ensures this.ignoreProtocolStats == ignoreProtocolStats
      ensures filter.None? && compiles == 0
    {
      this.interfaces := interfaces;
      this.skipChecks := skipChecks;
      this.ignoreProtocolStats := ignoreProtocolStats;
      filter := None;
      compiles := 0;
    }

    /** The loop over netio: the same filter decision as smnet, then the
        counter record of each selected sample. */
    method ReportSamples(byName: map<string, Interface>, netio: seq<IOCounters>) returns (out: seq<Metric>)
      requires |interfaces| != 0 ==> filter.Some?
      ensures out == InterfaceRecords(byName, Accepted(Policy(interfaces, filter, skipChecks, byName), netio))
    {
      ghost var policy := Policy(interfaces, filter, skipChecks, byName);
      out := [];
      for k := 0 to |netio|
        invariant out == InterfaceRecords(byName, Accepted(policy, netio[..k]))
      {
        var io := netio[k];
        RecordsStep(byName, policy, netio, k);
        if |interfaces| != 0 {
          var found := false;
          if filter.value.accepts(io.name) {
            found := true;
          }
          if !found {
            continue;
          }
        } else if !skipChecks {
          if io.name !in byName {
            continue;
          }
          var iface := byName[io.name];
          if iface.flags.loopback {
            continue;
          }
          if !iface.flags.up {
            continue;
          }
        }
        var tiface := InterfaceOf(byName, io.name);
        var fields := InterfaceFields(io, tiface);
        out := out + [Metric(Counter, "smnet", fields, map["interface" := io.name])];
      }
      assert netio[..|netio|] == netio;
    }

    /** One poll: the same error order, lazy compilation and selection as
        smnet, with the constant-zero enrichment fields. */
    method Gather(host: Host) returns (err: Option<GatherError>, out: seq<Metric>)
      modifies this
      ensures host.netIO.Failure? ==>
                err == Some(NetIOError(host.netIO.error)) && out == [] &&
                filter == old(filter) && compiles == old(compiles)
      ensures host.netIO.Success? ==>
                compiles == old(compiles) + (if old(filter).None? then 1 else 0)
      ensures host.netIO.Success? && CompileStep(old(filter), interfaces, host).Failure? ==>
                err == Some(CompileError(CompileStep(old(filter), interfaces, host).error)) && out == [] &&
                filter.None?
      ensures host.netIO.Success? && CompileStep(old(filter), interfaces, host).Success? ==>
                filter == CompileStep(old(filter), interfaces, host).value
      ensures host.netIO.Success? && CompileStep(old(filter), interfaces, host).Success? &&
              host.interfaces.Failure? ==>
                err == Some(InterfacesError(host.interfaces.error)) && out == []
      ensures err.None? <==>
                host.netIO.Success? && CompileStep(old(filter), interfaces, host).Success? &&
                host.interfaces.Success?
      ensures err.None? && |interfaces| != 0 ==> filter.Some?
      ensures err.None? ==>
                var byName := ByName(host.interfaces.value);
                var accepted := Accepted(Policy(interfaces, filter, skipChecks, byName), host.netIO.value);
                && |accepted| <= |out|
                && out[..|accepted|] == InterfaceRecords(byName, accepted)
                && ProtocolRecords(ignoreProtocolStats, host.netProto, out[|accepted|..])
    {
      out := [];
      if host.netIO.Failure? {
        err := Some(NetIOError(host.netIO.error));
        return;
      }
      var netio := host.netIO.value;

      if filter.None? {
        compiles := compiles + 1;
        var compiled := Compile(interfaces, host.compiled);
        if compiled.Failure? {
          filter := None;
          err := Some(CompileError(compiled.error));
          return;
        }
        filter := compiled.value;
      }

      if host.interfaces.Failure? {
        err := Some(InterfacesError(host.interfaces.error));
        return;
      }
      var byName := IndexByName(host.interfaces.value);
      assert |interfaces| != 0 ==> filter.Some?;
      out := ReportSamples(byName, netio);
      ghost var n := |out|;
      var protocolRecords := ProtocolStep(ignoreProtocolStats, host.netProto);
      out := out + protocolRecords;
      assert out[n..] == protocolRecords;
      err := None;
    }
  }
}

/** System-wide protocol statistics (plugins/inputs/smnet/smnet.go and
    plugins/inputs/netinfo/netinfo.go, end of Gather): every (protocol, stat)
    pair becomes one field named lower(protocol) + "_" + lower(stat), all in
    one record tagged interface=all. */
module Protocols {
  import opened Wrappers
  import opened Text
  import opened Metrics

  /** One protocol's counters as NetProto reports them. */
  datatype NetProto = NetProto(protocol: string, stats: map<string, int>)

  /** The flattened field name of a statistic: "<protocol>_<stat>", lower
      case. */
  function FlatKey(protocol: string, stat: string): (k: string)
    ensures |k| == |protocol| + 1 + |stat| && k[|protocol|] == '_'
    ensures forall i :: 0 <= i < |k| ==> !('A' <= k[i] <= 'Z')
  {
    Lower(protocol) + "_" + Lower(stat)
  }

  /** Whether a protocol table has a statistic that flattens to `key`. */
  predicate Contributes(p: NetProto, key: string)
  {
    exists stat :: stat in p.stats && FlatKey(p.protocol, stat) == key
  }

  /** The field names produced by the protocols `protos`. */
  function FlatKeys(protos: seq<NetProto>): set<string>
  {
    set i, stat | 0 <= i < |protos| && stat in protos[i].stats :: FlatKey(protos[i].protocol, stat)
  }

  /** `v` is a value the loop may leave under `key`: that of a statistic of
      the last protocol contributing `key`. Which statistic of that protocol,
      when two of its names lower-case alike, depends on Go's map order and
      is left open. */
  predicate WinsIn(protos: seq<NetProto>, key: string, v: Value)
  {
    exists i, stat ::
      && 0 <= i < |protos| && stat in protos[i].stats
      && FlatKey(protos[i].protocol, stat) == key
      && v == Int(protos[i].stats[stat])
      && forall j :: i < j < |protos| ==> !Contributes(protos[j], key)
  }

  /** The fields of the protocol record. */
  predicate FlattenedFrom(protos: seq<NetProto>, fields: map<string, Value>)
  {
    && fields.Keys == FlatKeys(protos)
    && forall key :: key in fields ==> WinsIn(protos, key, fields[key])
  }

  /** With no two statistics flattening to the same name, every statistic's
      value is found under its flattened name. */
  lemma FlattenedUnique(protos: seq<NetProto>, fields: map<string, Value>, i: nat, stat: string)
    requires FlattenedFrom(protos, fields)
    requires i < |protos| && stat in protos[i].stats
    requires forall j, s ::
               (0 <= j < |protos| && s in protos[j].stats && FlatKey(protos[j].protocol, s) == FlatKey(protos[i].protocol, stat))
               ==> j == i && s == stat
    ensures FlatKey(protos[i].protocol, stat) in fields
    ensures fields[FlatKey(protos[i].protocol, stat)] == Int(protos[i].stats[stat])
  {
    var key := FlatKey(protos[i].protocol, stat);
    assert key in FlatKeys(protos);
    var i', s' :| 0 <= i' < |protos| && s' in protos[i'].stats && FlatKey(protos[i'].protocol, s') == key
                  && fields[key] == Int(protos[i'].stats[s'])
                  && forall j :: i' < j < |protos| ==> !Contributes(protos[j], key);
  }

  /** The nested loop of Gather: protocols in order, each protocol's
      statistics in an unspecified order, each assigning fields[name]. */
  method Flatten(protos: seq<NetProto>) returns (fields: map<string, Value>)
    ensures FlattenedFrom(protos, fields)
  {
    fields := map[];
    for i := 0 to |protos|
      invariant FlattenedFrom(protos[..i], fields)
    {
      ghost var fields0 := fields;
      fields := StoreStats(protos[i], fields);
      PrefixStep(protos, i, fields0, fields);
    }
    assert protos[..|protos|] == protos;
  }

  /** The names the statistics `done` of `p` flatten to. */
  function KeysOf(p: NetProto, done: set<string>): set<string>
  {
    set s | s in done :: FlatKey(p.protocol, s)
  }

  /** `v` is the value of one of the statistics `done` of `p` that flattens
      to `key`. */
  predicate StoredFrom(p: NetProto, done: set<string>, key: string, v: Value)
  {
    exists s :: s in done && s in p.stats && FlatKey(p.protocol, s) == key && v == Int(p.stats[s])
  }

  /** Every name of the statistics `done` holds the value of one of them. */
  predicate StoredAll(p: NetProto, done: set<string>, fields: map<string, Value>)
  {
    forall key :: key in KeysOf(p, done) ==> key in fields && StoredFrom(p, done, key, fields[key])
  }

  /** Storing one more statistic keeps StoredAll. */
  lemma StoreOne(p: NetProto, done: set<string>, stat: string, fields: map<string, Value>)
    requires stat in p.stats && StoredAll(p, done, fields)
    ensures StoredAll(p, done + {stat}, fields[FlatKey(p.protocol, stat) := Int(p.stats[stat])])
  {
    var name := FlatKey(p.protocol, stat);
    var after := fields[name := Int(p.stats[stat])];
    assert KeysOf(p, done + {stat}) == KeysOf(p, done) + {name};
    forall key | key in KeysOf(p, done + {stat})
      ensures key in after && StoredFrom(p, done + {stat}, key, after[key])
    {
      if key != name {
        var s :| s in done && s in p.stats && FlatKey(p.protocol, s) == key && fields[key] == Int(p.stats[s]);
        assert s in done + {stat};
      } else {
        assert stat in done + {stat};
      }
    }
  }

  /** The inner loop of Gather: every statistic of `p` stored under its
      flattened name, in an unspecified order, over the fields of the earlier
      protocols. */
  method StoreStats(p: NetProto, fields0: map<string, Value>) returns (fields: map<string, Value>)
    ensures fields.Keys == fields0.Keys + StatKeys(p)
    ensures StoredAll(p, p.stats.Keys, fields)
    ensures forall key :: key in fields && key !in StatKeys(p) ==> fields[key] == fields0[key]
  {
    fields := fields0;
    var todo := p.stats.Keys;
    ghost var done: set<string> := {};
    while todo != {}
      invariant todo + done == p.stats.Keys && todo !! done
      invariant fields.Keys == fields0.Keys + KeysOf(p, done)
      invariant StoredAll(p, done, fields)
      invariant forall key :: key in fields && key !in KeysOf(p, done) ==> fields[key] == fields0[key]
      decreases todo
    {
      var stat :| stat in todo;
      var name := FlatKey(p.protocol, stat);
      StoreOne(p, done, stat, fields);
      assert KeysOf(p, done + {stat}) == KeysOf(p, done) + {name};
      fields := fields[name := Int(p.stats[stat])];
      todo := todo - {stat};
      done := done + {stat};
    }
    assert done == p.stats.Keys;
  }

  /** The names one protocol's statistics flatten to. */
  function StatKeys(p: NetProto): set<string>
  {
    set s | s in p.stats :: FlatKey(p.protocol, s)
  }

  /** One more protocol adds its statistics' names. */
  lemma FlatKeysSnoc(pre: seq<NetProto>, p: NetProto)
    ensures FlatKeys(pre + [p]) == FlatKeys(pre) + StatKeys(p)
  {
    var next := pre + [p];
    forall key | key in FlatKeys(next) ensures key in FlatKeys(pre) || key in StatKeys(p) {
      var j, s :| 0 <= j < |next| && s in next[j].stats && key == FlatKey(next[j].protocol, s);
      if j < |pre| { assert next[j] == pre[j]; }
    }
    forall key | key in FlatKeys(pre) ensures key in FlatKeys(next) {
      var j, s :| 0 <= j < |pre| && s in pre[j].stats && key == FlatKey(pre[j].protocol, s);
      assert next[j] == pre[j];
    }
    forall s | s in p.stats ensures FlatKey(p.protocol, s) in FlatKeys(next) {
      assert next[|pre|] == p;
    }
  }

  /** A value that wins among the earlier protocols still wins when the next
      protocol does not produce its name. */
  lemma WinsInSnoc(pre: seq<NetProto>, p: NetProto, key: string, v: Value)
    requires WinsIn(pre, key, v) && key !in StatKeys(p)
    ensures WinsIn(pre + [p], key, v)
  {
    var next := pre + [p];
    var j, s :| 0 <= j < |pre| && s in pre[j].stats && FlatKey(pre[j].protocol, s) == key
                && v == Int(pre[j].stats[s])
                && forall k :: j < k < |pre| ==> !Contributes(pre[k], key);
    assert next[j] == pre[j];
    assert !Contributes(next[|pre|], key);
    forall k | j < k < |next| ensures !Contributes(next[k], key) {
      if k < |pre| { assert next[k] == pre[k]; }
    }
  }

  /** A value of the last protocol wins. */
  lemma WinsInLast(pre: seq<NetProto>, p: NetProto, s: string)
    requires s in p.stats
    ensures WinsIn(pre + [p], FlatKey(p.protocol, s), Int(p.stats[s]))
  {
    assert (pre + [p])[|pre|] == p;
  }

  /** After a protocol's statistics have all been stored, the fields are the
      flattening of the prefix one longer. */
  lemma PrefixStep(protos: seq<NetProto>, i: nat, fields0: map<string, Value>, fields: map<string, Value>)
    requires i < |protos|
    requires FlattenedFrom(protos[..i], fields0)
    requires fields.Keys == fields0.Keys + StatKeys(protos[i])
    requires StoredAll(protos[i], protos[i].stats.Keys, fields)
    requires forall key :: key in fields && key !in StatKeys(protos[i]) ==> fields[key] == fields0[key]
    ensures FlattenedFrom(protos[..i + 1], fields)
  {
    var pre, p := protos[..i], protos[i];
    assert protos[..i + 1] == pre + [p];
    FlatKeysSnoc(pre, p);
    forall key | key in fields ensures WinsIn(pre + [p], key, fields[key]) {
      if key in StatKeys(p) {
        var s :| s in p.stats.Keys && s in p.stats && FlatKey(p.protocol, s) == key && fields[key] == Int(p.stats[s]);
        WinsInLast(pre, p, s);
      } else {
        WinsInSnoc(pre, p, key, fields[key]);
      }
    }
  }

  /** The tags of the protocol record. */
  const AllTags: map<string, string> := map["interface" := "all"]

  /** The records the protocol step adds: none when protocol statistics are
      ignored, otherwise one untyped "smnet" record tagged interface=all whose
      fields flatten what NetProto returned, nothing when it failed. */
  predicate ProtocolRecords(ignore: bool, netProto: Result<seq<NetProto>, string>, out: seq<Metric>)
  {
    if ignore then out == []
    else
      && |out| == 1
      && out[0].kind == Untyped && out[0].name == "smnet" && out[0].tags == AllTags
      && FlattenedFrom(if netProto.Success? then netProto.value else [], out[0].fields)
  }

  /** A failed NetProto call yields a record with no fields, not an error. */
  lemma FailedNetProtoIsEmpty(netProto: Result<seq<NetProto>, string>, out: seq<Metric>)
    requires netProto.Failure? && ProtocolRecords(false, netProto, out)
    ensures |out| == 1 && out[0].fields == map[]
  {
    assert out[0].fields.Keys == {};
  }

  /** The protocol step of Gather. */
  method ProtocolStep(ignore: bool, netProto: Result<seq<NetProto>, string>) returns (out: seq<Metric>)
    ensures ProtocolRecords(ignore, netProto, out)
  {
    out := [];
    if !ignore {
      var protos := if netProto.Success? then netProto.value else [];
      var fields := Flatten(protos);
      out := [Metric(Untyped, "smnet", fields, AllTags)];
    }
  }
}

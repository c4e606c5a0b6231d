/** Link state, negotiated speed and administrative status of an interface
    (plugins/inputs/smnet/smnet.go, ReadRunStatus and the admin-status test
    in Gather). The ethtool queries are inputs: a missing value stands for a
    query that failed. */
module LinkProbe {
  import opened Wrappers
  import opened Text

  /** The speed ethtool reports when none was negotiated (the largest
      32-bit value). */
  const SpeedUnknown: nat := 4294967295

  /** SMIORunStatus */
  datatype RunStatus = RunStatus(runStatus: nat, speed: nat)

  /** ReadRunStatus from the results of LinkState and CmdGetMapped: the run
      state is LinkState's answer, or 0 when it failed; the speed is the
      mapped "speed" entry, unless the query failed, the entry is missing or
      it is the unknown sentinel, in which case it is 0. */
  function ReadRunStatus(linkState: Option<nat>, mapped: Option<map<string, nat>>): (st: RunStatus)
    ensures linkState.None? ==> st.runStatus == 0
    ensures linkState.Some? ==> st.runStatus == linkState.value
    ensures st.speed != SpeedUnknown
    ensures st.speed != 0 ==> mapped.Some? && "speed" in mapped.value && mapped.value["speed"] == st.speed
    ensures mapped.Some? && "speed" in mapped.value && mapped.value["speed"] != SpeedUnknown ==>
              st.speed == mapped.value["speed"]
  {
    var runStatus := if linkState.Some? then linkState.value else 0;
    var speed :=
      if mapped.Some? && "speed" in mapped.value && mapped.value["speed"] != SpeedUnknown
      then mapped.value["speed"] else 0;
    RunStatus(runStatus, speed)
  }

  /** The flags of a Go net.Interface, bit by bit in the order of Go's
      flag names. */
  datatype Flags = Flags(up: bool, broadcast: bool, loopback: bool, pointToPoint: bool,
                         multicast: bool, running: bool)

  /** The zero value: no flag set. */
  const NoFlags := Flags(false, false, false, false, false, false)

  /** Go's names of the interface flags, in bit order. */
  const FlagNameTable: seq<string> := ["up", "broadcast", "loopback", "pointtopoint", "multicast", "running"]

  /** The flag bits, in the same order. */
  function Bits(f: Flags): seq<bool>
  {
    [f.up, f.broadcast, f.loopback, f.pointToPoint, f.multicast, f.running]
  }

  /** The names whose bit is set, in order. */
  function Selected(bits: seq<bool>, names: seq<string>): (r: seq<string>)
    requires |bits| == |names|
    ensures |bits| > 0 && bits[0] ==> |r| > 0 && r[0] == names[0]
    decreases |bits|
  {
    if |bits| == 0 then []
    else (if bits[0] then [names[0]] else []) + Selected(bits[1..], names[1..])
  }

  /** A name that can sit between "|" separators unchanged by space removal. */
  predicate Plain(n: string)
  {
    '|' !in n && ' ' !in n
  }

  /** Selecting from plain names gives plain names. */
  lemma {:induction false} SelectedPlain(bits: seq<bool>, names: seq<string>)
    requires |bits| == |names|
    requires forall k :: 0 <= k < |names| ==> Plain(names[k])
    ensures forall i :: 0 <= i < |Selected(bits, names)| ==> Plain(Selected(bits, names)[i])
    decreases |bits|
  {
    if |bits| > 0 {
      SelectedPlain(bits[1..], names[1..]);
      var head: seq<string> := if bits[0] then [names[0]] else [];
      var tail := Selected(bits[1..], names[1..]);
      assert Selected(bits, names) == head + tail;
      forall i | 0 <= i < |head + tail| ensures Plain((head + tail)[i]) {
        if i >= |head| {
          assert (head + tail)[i] == tail[i - |head|];
        }
      }
    }
  }

  /** A name that no selected position carries is not selected. */
  lemma {:induction false} SelectedAvoids(bits: seq<bool>, names: seq<string>, x: string)
    requires |bits| == |names|
    requires forall k :: 0 <= k < |names| && bits[k] ==> names[k] != x
    ensures x !in Selected(bits, names)
    decreases |bits|
  {
    if |bits| > 0 {
      SelectedAvoids(bits[1..], names[1..], x);
      assert forall k :: 1 <= k < |names| ==> names[k] == names[1..][k - 1];
    }
  }

  lemma TablePlain()
    ensures forall k :: 0 <= k < |FlagNameTable| ==> Plain(FlagNameTable[k])
  {
    var t := FlagNameTable;
    assert Plain(t[0]) && Plain(t[1]) && Plain(t[2]) && Plain(t[3]) && Plain(t[4]) && Plain(t[5]);
  }

  lemma TableUpFirst()
    ensures forall k :: 1 <= k < |FlagNameTable| ==> FlagNameTable[k] != "up"
  {
    var t := FlagNameTable;
    assert |t[1]| != 2 && |t[2]| != 2 && |t[3]| != 2 && |t[4]| != 2 && |t[5]| != 2;
  }

  /** The names of the set flags, in bit order. */
  function FlagNames(f: Flags): seq<string>
  {
    Selected(Bits(f), FlagNameTable)
  }

  /** The flag names hold no separator and no space, and the first one is
      "up" exactly when the up flag is set. */
  lemma FlagNamesFacts(f: Flags)
    ensures forall i :: 0 <= i < |FlagNames(f)| ==> Plain(FlagNames(f)[i])
    ensures |FlagNames(f)| > 0 ==> (FlagNames(f)[0] == "up" <==> f.up)
  {
    TablePlain();
    SelectedPlain(Bits(f), FlagNameTable);
    if !f.up {
      TableUpFirst();
      SelectedAvoids(Bits(f), FlagNameTable, "up");
    }
  }

  /** net.Flags.String(): the names of the set flags joined by "|", or "0"
      when none is set. */
  function FlagsString(f: Flags): string
  {
    if |FlagNames(f)| == 0 then "0" else Join(FlagNames(f), '|')
  }

  /** The admin status Gather derives from the flag text: 1 when the first
      "|"-separated token, spaces removed, is "up", and 0 otherwise. */
  function AdminStatus(flagText: string): (status: nat)
    ensures status <= 1
  {
    var tokens := Split(flagText, '|');
    if Remove(tokens[0], ' ') == "up" then 1 else 0
  }

  /** The admin status of an interface is 1 exactly when its up flag is set. */
  lemma AdminStatusIsUpFlag(f: Flags)
    ensures AdminStatus(FlagsString(f)) == (if f.up then 1 else 0)
  {
    var names := FlagNames(f);
    FlagNamesFacts(f);
    if |names| == 0 {
      SplitNoSep("0", '|');
      RemoveAbsent("0", ' ');
    } else {
      SplitJoin(names, '|');
      RemoveAbsent(names[0], ' ');
    }
  }
}

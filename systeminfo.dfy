/** The systeminfo collector (plugins/inputs/systeminfo/systeminfo.go): it
    reads /etc/.systeminfo line by line, keeps the value of every line whose
    title (the text before the full-width colon) is one of the known labels
    under that label's key (an English key, except for the test label, which
    is kept under itself), and stops at the end of the file or at the first
    read error. What the reads return is an input: the lines ReadString('\n')
    returned without error, then the last piece it returned together with
    io.EOF or another error. */
module SystemInfo {
  import opened Wrappers
  import opened Text
  import opened Metrics

  /** The separator between a title and its value, U+FF1A. */
  const Colon: char := '：'

  /** The key a known label is stored under, one test per label as in the
      read loop; None for any other text. */
  function LabelKey(title: string): Option<string>
  {
    if title == "测试" then Some("测试")
    else if title == "产品名称" then Some("pro_name")
    else if title == "标识码（产品唯一标识）" then Some("pro_code")
    else if title == "电磁泄露发射防护类型" then Some("launch_type")
    else if title == "生产者（制造商）" then Some("manufacturer")
    else if title == "系统版本" then Some("sys_version")
    else if title == "内核版本" then Some("kernel")
    else if title == "系统位数" then Some("sys_number")
    else if title == "三合一内核版本" then Some("three_kernel")
    else if title == "三合一软件版本" then Some("three_version")
    else if title == "固件版本（BIOS）" then Some("bios")
    else if title == "处理器信息" then Some("cpu_info")
    else if title == "内存" then Some("memory")
    else if title == "硬盘序列号" then Some("disk_number")
    else if title == "硬盘容量" then Some("disk_capacity")
    else if title == "主板版本号" then Some("mainboard_version")
    else if title == "系统更新时间" then Some("sys_update_time")
    else None
  }

  /** The key a line is stored under: the line splits on the colon into at
      least two pieces and the first one is a known label. */
  function LineKey(line: string): Option<string>
  {
    var a := Split(line, Colon);
    if |a| > 1 then LabelKey(a[0]) else None
  }

  /** The value a line stores: the second piece only, so whatever follows a
      second colon is dropped, and the trailing newline is kept. */
  function LineValue(line: string): string
  {
    var a := Split(line, Colon);
    if |a| > 1 then a[1] else ""
  }

  /** One pass of the read loop over the map of values. */
  function ApplyLine(fields: map<string, string>, line: string): map<string, string>
  {
    match LineKey(line)
    case None => fields
    case Some(key) => fields[key := LineValue(line)]
  }

  /** The map after the loop has gone over `lines` in order. */
  function LabelMap(lines: seq<string>): map<string, string>
    decreases |lines|
  {
    if |lines| == 0 then map[] else ApplyLine(LabelMap(lines[..|lines| - 1]), lines[|lines| - 1])
  }

  /** A labelled line "title：value" (optionally followed by a further colon
      and more text) stores exactly `value` under the title's key. */
  lemma LabelledLine(title: string, value: string, tail: string)
    requires LabelKey(title).Some? && Colon !in title && Colon !in value
    requires tail == [] || tail[0] == Colon
    ensures LineKey(title + [Colon] + value + tail) == LabelKey(title)
    ensures LineValue(title + [Colon] + value + tail) == value
  {
    assert title + [Colon] + value + tail == title + [Colon] + (value + tail);
    SplitAtFirstSep(title, Colon, value + tail);
    if tail == [] {
      assert value + tail == value;
      SplitNoSep(value, Colon);
    } else {
      assert value + tail == value + [Colon] + tail[1..];
      SplitAtFirstSep(value, Colon, tail[1..]);
    }
  }

  /** A line without the colon stores nothing. */
  lemma UnlabelledLine(line: string)
    requires Colon !in line
    ensures LineKey(line) == None
  {
    SplitNoSep(line, Colon);
  }

  /** The map holds a key exactly when some line is stored under it, and
      only keys of known labels. */
  lemma {:induction false} LabelMapKeys(lines: seq<string>, key: string)
    ensures key in LabelMap(lines) <==> exists i :: 0 <= i < |lines| && LineKey(lines[i]) == Some(key)
    decreases |lines|
  {
    if |lines| > 0 {
      var pre, last := lines[..|lines| - 1], lines[|lines| - 1];
      LabelMapKeys(pre, key);
      assert forall i :: 0 <= i < |pre| ==> lines[i] == pre[i];
      assert LabelMap(lines) == ApplyLine(LabelMap(pre), last);
      if LineKey(last) == Some(key) {
        assert key in LabelMap(lines);
      } else {
        assert key in LabelMap(lines) <==> key in LabelMap(pre);
      }
    }
  }

  /** A later line with the same key overwrites an earlier one: the value
      stored is that of the last line stored under the key. */
  lemma {:induction false} LastLineWins(lines: seq<string>, i: nat)
    requires i < |lines| && LineKey(lines[i]).Some?
    requires forall j :: i < j < |lines| ==> LineKey(lines[j]) != LineKey(lines[i])
    ensures LineKey(lines[i]).value in LabelMap(lines)
    ensures LabelMap(lines)[LineKey(lines[i]).value] == LineValue(lines[i])
    decreases |lines|
  {
    var pre := lines[..|lines| - 1];
    if i < |lines| - 1 {
      assert pre[i] == lines[i];
      forall j | i < j < |pre| ensures LineKey(pre[j]) != LineKey(pre[i]) {
        assert pre[j] == lines[j];
      }
      LastLineWins(pre, i);
    }
  }

  /** How a read ended. */
  datatype ReadEnd = EOF | ReadFailed(msg: string)

  /** The results of ReadString('\n') over the file: `lines` came back
      without error, `last` came back with `end`. */
  datatype Reads = Reads(lines: seq<string>, last: string, end: ReadEnd)

  /** Every piece the loop parses, in order: the last piece is parsed too. */
  function Pieces(feed: Reads): seq<string>
  {
    feed.lines + [feed.last]
  }

  /** The error Gather returns for how the feed ended: none at EOF. */
  function EndError(end: ReadEnd): Option<string>
  {
    if end.EOF? then None else Some(end.msg)
  }

  /** What one poll leaves behind: the error returned, the map the loop
      filled, and the records added to the accumulator. */
  datatype Outcome = Outcome(err: Option<string>, fields: map<string, string>, emitted: seq<Metric>)

  /** Gather as written: a failed open is returned; otherwise every piece is
      parsed and the loop returns at the end of the feed, so no record is
      ever added. */
  function AsWritten(openError: Option<string>, feed: Reads): Outcome
  {
    if openError.Some? then Outcome(openError, map[], [])
    else Outcome(EndError(feed.end), LabelMap(Pieces(feed)), [])
  }

  /** The keys of the gauge assembled after the loop (every key except the
      one of the test label). */
  const SummaryKeys: set<string> := {
    "pro_name", "pro_code", "launch_type", "manufacturer", "sys_version", "kernel",
    "sys_number", "three_kernel", "three_version", "bios", "cpu_info", "memory",
    "disk_number", "disk_capacity", "mainboard_version", "sys_update_time"
  }

  /** The gauge fields: each summary key with its stored value, or the empty
      string (the zero value of a Go map lookup) when none was stored. */
  function Summary(fields: map<string, string>): map<string, Value>
  {
    map k | k in SummaryKeys :: Str(if k in fields then fields[k] else "")
  }

  /** Gather as evidently intended: at EOF the loop hands over to the
      assembly of the gauge, which is added with no tags. */
  function Intended(openError: Option<string>, feed: Reads): Outcome
  {
    if openError.Some? then Outcome(openError, map[], [])
    else
      var fields := LabelMap(Pieces(feed));
      var emitted := if feed.end.EOF? then [Metric(Gauge, "systeminfo", Summary(fields), map[])] else [];
      Outcome(EndError(feed.end), fields, emitted)
  }

  /** Every label is stored under the test key or under a key of the
      gauge. */
  lemma LabelKeyRange(title: string)
    ensures LabelKey(title).Some? ==> LabelKey(title).value == "测试" || LabelKey(title).value in SummaryKeys
  {
  }

  /** The map holds only the test key and keys of the gauge. */
  lemma LabelMapRange(lines: seq<string>, key: string)
    requires key in LabelMap(lines)
    ensures key == "测试" || key in SummaryKeys
  {
    LabelMapKeys(lines, key);
    var i :| 0 <= i < |lines| && LineKey(lines[i]) == Some(key);
    LabelKeyRange(Split(lines[i], Colon)[0]);
  }

  /** In the intended gauge, a key reports the value of the last line stored
      under it. */
  lemma SummaryReportsLastValue(lines: seq<string>, i: nat)
    requires i < |lines| && LineKey(lines[i]).Some? && LineKey(lines[i]).value in SummaryKeys
    requires forall j :: i < j < |lines| ==> LineKey(lines[j]) != LineKey(lines[i])
    ensures Summary(LabelMap(lines))[LineKey(lines[i]).value] == Str(LineValue(lines[i]))
  {
    LastLineWins(lines, i);
  }

  /** In the intended gauge, a key no line is stored under reports "". */
  lemma SummaryDefaultsEmpty(lines: seq<string>, key: string)
    requires key in SummaryKeys
    requires forall i :: 0 <= i < |lines| ==> LineKey(lines[i]) != Some(key)
    ensures Summary(LabelMap(lines))[key] == Str("")
  {
    NoLineNoKey(lines, key);
    SummaryLookup(LabelMap(lines), key);
  }

  /** A key no line is stored under is absent from the map. */
  lemma NoLineNoKey(lines: seq<string>, key: string)
    requires forall i :: 0 <= i < |lines| ==> LineKey(lines[i]) != Some(key)
    ensures key !in LabelMap(lines)
  {
    LabelMapKeys(lines, key);
  }

  /** Looking a gauge key up in the summary. */
  lemma SummaryLookup(fields: map<string, string>, key: string)
    requires key in SummaryKeys
    ensures key in Summary(fields) && Summary(fields)[key] == Str(if key in fields then fields[key] else "")
  {
  }

  /** A file holding the single line "产品名称：X": the poll as written
      returns no error and reports nothing, while the intended poll reports
      a gauge whose pro_name is "X\n". */
  lemma ReportNeverReached()
    ensures var feed := Reads(["产品名称：X\n"], "", EOF);
            && AsWritten(None, feed).err.None?
            && AsWritten(None, feed).emitted == []
            && |Intended(None, feed).emitted| == 1
            && Intended(None, feed).emitted[0].fields["pro_name"] == Str("X\n")
  {
    var line := "产品名称：X\n";
    assert line == "产品名称" + [Colon] + "X\n" + [];
    LabelledLine("产品名称", "X\n", []);
    assert LabelKey("产品名称") == Some("pro_name");
    UnlabelledLine("");
    var pieces := Pieces(Reads([line], "", EOF));
    assert pieces[..1] == [line] && pieces[1] == "";
    assert [line][..0] == [];
    assert LabelMap([line]) == ApplyLine(map[], line) == map["pro_name" := "X\n"];
    assert LabelMap(pieces) == ApplyLine(LabelMap([line]), "");
  }

  /** The read loop of Gather as written. It leaves only through `return`,
      so the assembly of the gauge after it is never reached. */
  method Gather(openError: Option<string>, feed: Reads)
    returns (err: Option<string>, fields: map<string, string>, emitted: seq<Metric>)
    ensures Outcome(err, fields, emitted) == AsWritten(openError, feed)
  {
    emitted := [];
    fields := map[];
    if openError.Some? {
      err := openError;
      return;
    }
    var i := 0;
    while true
      invariant 0 <= i <= |feed.lines|
      invariant fields == LabelMap(feed.lines[..i])
      decreases |feed.lines| - i
    {
      var line, readErr;
      if i < |feed.lines| {
        line, readErr := feed.lines[i], None;
      } else {
        line, readErr := feed.last, Some(feed.end);
      }
      ghost var before := fields;
      var a := Split(line, Colon);
      if |a| > 1 {
        var b, c := a[0], a[1];
        var key := LabelKey(b);
        if key.Some? {
          fields := fields[key.value := c];
        }
      } else if readErr.Some? {
        assert feed.lines[..i] == feed.lines;
        LastPiece(feed, before);
        err := EndError(readErr.value);
        return;
      }
      if readErr.Some? {
        assert feed.lines[..i] == feed.lines;
        LastPiece(feed, before);
        err := EndError(readErr.value);
        return;
      }
      assert feed.lines[..i + 1] == feed.lines[..i] + [line];
      i := i + 1;
    }
    assert false;
  }

  /** The read loop as evidently intended: EOF ends the loop, and the gauge
      of the summary keys is added before returning nil. */
  method GatherIntended(openError: Option<string>, feed: Reads)
    returns (err: Option<string>, fields: map<string, string>, emitted: seq<Metric>)
    ensures Outcome(err, fields, emitted) == Intended(openError, feed)
  {
    emitted := [];
    fields := map[];
    if openError.Some? {
      err := openError;
      return;
    }
    var i := 0;
    while true
      invariant 0 <= i <= |feed.lines|
      invariant fields == LabelMap(feed.lines[..i])
      decreases |feed.lines| - i
    {
      var line, readErr;
      if i < |feed.lines| {
        line, readErr := feed.lines[i], None;
      } else {
        line, readErr := feed.last, Some(feed.end);
      }
      ghost var before := fields;
      var a := Split(line, Colon);
      if |a| > 1 {
        var b, c := a[0], a[1];
        var key := LabelKey(b);
        if key.Some? {
          fields := fields[key.value := c];
        }
      }
      if readErr.Some? {
        assert feed.lines[..i] == feed.lines;
        LastPiece(feed, before);
        if readErr.value.EOF? {
          break;
        }
        err := EndError(readErr.value);
        return;
      }
      assert feed.lines[..i + 1] == feed.lines[..i] + [line];
      i := i + 1;
    }
    emitted := [Metric(Gauge, "systeminfo", Summary(fields), map[])];
    err := None;
  }

  /** Parsing the last piece over the map of all earlier lines gives the map
      of every piece. */
  lemma LastPiece(feed: Reads, before: map<string, string>)
    requires before == LabelMap(feed.lines)
    ensures LabelMap(Pieces(feed)) == ApplyLine(before, feed.last)
  {
    assert Pieces(feed)[..|Pieces(feed)| - 1] == feed.lines;
  }
}

# smnet, netinfo and systeminfo collectors in Dafny

This project models three telegraf input plugins of this fork:

- **smnet** (`plugins/inputs/smnet/smnet.go`) is the network-interface collector. One poll does the following, in order:
  - reads the traffic counters (NetIO);
  - compiles the interface allow-list filter while none is stored;
  - enumerates the interfaces;
  - keeps the samples the filter decision selects;
  - reports one counter record `smnet` per selected sample, tagged `interface=<name>`. The record carries the sample's counters and the interface's index, name, MTU and hardware address. It is enriched with:
    - the first dotted address and its dotted-decimal netmask (ParseIPMask);
    - the gateway from the output of `route -n` (deleteExtraSpace and the ReadGateways parse loop);
    - the admin status from the flag text;
    - the ethtool run state and speed (ReadRunStatus);
  - unless protocol statistics are ignored (`ignore_protocol_stats`), ends with one untyped `smnet` record tagged `interface=all` that holds the flattened protocol statistics (`<protocol>_<stat>`, lower case).
- **netinfo** (`plugins/inputs/netinfo/netinfo.go`) is the same poll. Its enrichment fields (`speed`, `ip`, `net_mask`, `gateway`, `admin_Status`, `run_state`) are the constant 0.
- **systeminfo** (`plugins/inputs/systeminfo/systeminfo.go`) reads `/etc/.systeminfo` line by line and keeps the value of each known Chinese label under that label's key. Sixteen labels have English keys; the test label `测试` is kept under itself.

Everything the plugins read from outside is a value passed in (`NetSource.Host`, `SystemInfo.Reads`). This covers the counter samples, the outcome of `filter.Compile`, the interface list, the lines `route -n` prints, the ethtool answers, the protocol tables and the reads of the file.

The modules are listed leaves first:

| module | file | models |
|---|---|---|
| `Wrappers` | wrappers.dfy | Option and Result |
| `Text` | text.dfy | `strings.Split`/`Join`/`ReplaceAll`/`ToLower`/`Index`, `strconv.Itoa` |
| `Space` | space.dfy | `deleteExtraSpace` (imperative loop) and its reference `Collapse` |
| `Routes` | routes.dfy | the `ReadGateways` parse loop (imperative) |
| `Metrics` | metrics.dfy | the records handed to the accumulator |
| `LinkProbe` | linkprobe.dfy | `ReadRunStatus`, `net.Flags.String`, the admin-status test |
| `IPMask` | ipmask.dfy | `ParseIPMask` (imperative) |
| `Protocols` | protocols.dfy | the protocol-statistics flattening (imperative nested loop) |
| `NetSource` | netsource.dfy | inputs, `interfacesByName`, `filter.Compile`, the filter decision |
| `SMNet` | smnet.dfy | class `SMNetIOStats` with `Gather` |
| `NetInfo` | netinfo.dfy | class `SMNetIOStats` with `Gather` |
| `SystemInfo` | systeminfo.dfy | the read loop of `Gather`, as written and as intended |

Some behaviour of the code that the model keeps, though a reader might expect otherwise:

- With an empty allow-list, `filter.Compile` returns no filter, so the filter, nominally compiled once, is compiled again on every poll (`NetSource.CompileStep`).
- The run state is LinkState's raw answer.
- An interface without a dotted address reports empty `ip` and `net_mask` strings.
- The address ParseIPMask picks is the first one whose text holds a `.`.
- A failed NetProto call still yields the `interface=all` record, with no fields.

## Model

| member | source | states |
|---|---|---|
| Text.Split | plugins/inputs/smnet/smnet.go:280 | splitting on a one-character separator always yields at least one piece |
| Text.Join | plugins/inputs/smnet/smnet.go:215 | definition of strings.Join with a one-character separator; JoinSplit and SplitJoin prove it inverse to Split |
| Text.SplitPiecesNoSep | plugins/inputs/smnet/smnet.go:280 | no piece of a split contains the separator |
| Text.JoinSplit | plugins/inputs/smnet/smnet.go:280 | joining the pieces of a split with the separator gives the text back |
| Text.SplitJoin | plugins/inputs/smnet/smnet.go:215 | pieces free of the separator, joined and split again, come back unchanged |
| Text.SplitNoSep | plugins/inputs/smnet/smnet.go:132 | a text without the separator splits into itself alone |
| Text.SplitAtFirstSep | plugins/inputs/systeminfo/systeminfo.go:39 | a text splits at its first separator: the part before it, then the split of the rest |
| Text.Remove | plugins/inputs/smnet/smnet.go:134 | ReplaceAll with "" leaves no occurrence of the character and keeps every other character as often as it occurred (multisets); order is kept by RemoveConcat |
| Text.RemoveConcat | plugins/inputs/smnet/smnet.go:134 | removal works piece by piece, so the kept characters stay in their order |
| Text.RemoveAbsent | plugins/inputs/smnet/smnet.go:134 | removing a character that does not occur leaves the text unchanged |
| Text.Lower | plugins/inputs/smnet/smnet.go:173-174 | lower-casing keeps the length, turns each upper-case ASCII letter into its lower-case letter and keeps every other character |
| Text.IndexOf | plugins/inputs/smnet/smnet.go:214 | the index found holds the character and no earlier position does |
| Text.Decimal | plugins/inputs/smnet/smnet.go:212 | Itoa of a non-negative number is a non-empty string of digits without a leading zero |
| Text.DecimalRoundTrip | plugins/inputs/smnet/smnet.go:212 | reading the Itoa digits back gives the number |
| Space.ReplaceTabs | plugins/inputs/smnet/smnet.go:230 | each tab becomes a space and every other character is kept, so no tab remains and whitespace positions are unchanged |
| Space.IsSpace | plugins/inputs/smnet/smnet.go:231 | definition of the class `\s` of Go's regexp syntax: tab, newline, form feed, carriage return and space |
| Space.ReplaceTabsKeepsNonSpace | plugins/inputs/smnet/smnet.go:230 | replacing tabs does not change the non-whitespace characters |
| Space.Collapse | plugins/inputs/smnet/smnet.go:228-241 | collapsing never lengthens the text and keeps its first character |
| Space.CollapseNoAdjacent | plugins/inputs/smnet/smnet.go:231-239 | after collapsing, no two whitespace characters are adjacent |
| Space.CollapseKeepsNonSpace | plugins/inputs/smnet/smnet.go:228-241 | collapsing keeps the non-whitespace characters, in order |
| Space.CollapseChars | plugins/inputs/smnet/smnet.go:228-241 | collapsing invents no character |
| Space.CollapseFixed | plugins/inputs/smnet/smnet.go:236 | a text with no adjacent whitespace is left as it is |
| Space.CollapseIdempotent | plugins/inputs/smnet/smnet.go:228-241 | collapsing twice is collapsing once |
| Space.CollapseRun | plugins/inputs/smnet/smnet.go:237 | a run of whitespace collapses to its first character |
| Space.CollapseConcat | plugins/inputs/smnet/smnet.go:237 | texts cut outside a whitespace run collapse piece by piece |
| Space.RunEnd | plugins/inputs/smnet/smnet.go:231 | the end of a whitespace run: every position before it is whitespace and the next is not |
| Space.FirstPair | plugins/inputs/smnet/smnet.go:235 | the first position where two whitespace characters meet, or none |
| Space.FindRun | plugins/inputs/smnet/smnet.go:231-235 | `\s{2,}` matches nothing exactly when no two whitespace characters are adjacent; otherwise the leftmost, longest run |
| Space.CutPreservesCollapse | plugins/inputs/smnet/smnet.go:237 | cutting the first run back to its first character does not change the collapsed text |
| Space.DeleteExtraSpace | plugins/inputs/smnet/smnet.go:228-241 | the loop yields the collapsed, tab-free text: no tab, no adjacent whitespace, the same non-whitespace characters |
| Routes.RowRoute | plugins/inputs/smnet/smnet.go:280-289 | definition of one table line's route (eight fields: interface field 7, gateway field 1); its meaning for the lookup is GatewayOfFirstRow |
| Routes.RowRoutes | plugins/inputs/smnet/smnet.go:280-282 | definition of the routes of the table lines, line by line; used by TableKeys, TableFirstWins and GatewayOfFirstRow |
| Routes.Table | plugins/inputs/smnet/smnet.go:276-289 | definition of the gateway map the rows below the header build, a row whose interface is present being ignored; TableKeys and TableFirstWins give its meaning |
| Routes.GatewayOf | plugins/inputs/smnet/smnet.go:297 | definition of the gateway looked up for a name, "" when absent; NoRowNoGateway and GatewayOfFirstRow give its meaning |
| Routes.InsertRow | plugins/inputs/smnet/smnet.go:280-289 | the loop body (deleteExtraSpace, Split on " ", the eight-field test and the first-wins insert) adds exactly the line's route unless its interface is present, and otherwise leaves the map as it was |
| Routes.TableKeys | plugins/inputs/smnet/smnet.go:276-289 | an interface is in the gateway map exactly when some row below the header is a route for it |
| Routes.TableFirstWins | plugins/inputs/smnet/smnet.go:284-288 | the first route row for an interface decides its gateway; later rows are ignored |
| Routes.NoRowNoGateway | plugins/inputs/smnet/smnet.go:297 | an interface without a route row gets the empty gateway |
| Routes.GatewayOfFirstRow | plugins/inputs/smnet/smnet.go:276-297 | the gateway reported is field 1 of the interface's first eight-field row below the header |
| Routes.BodyStep | plugins/inputs/smnet/smnet.go:280-289 | reading one more table line inserts its route unless the interface is present |
| Routes.ParseRoutes | plugins/inputs/smnet/smnet.go:262-290 | the loop skips two header lines and builds the first-wins map of the eight-field rows |
| Routes.ReadGateways | plugins/inputs/smnet/smnet.go:248-298 | the gateway is the map entry or ""; a non-empty gateway comes from some route row for the name |
| LinkProbe.ReadRunStatus | plugins/inputs/smnet/smnet.go:306-329 | run state is LinkState's answer or 0 on failure; speed is never the unknown sentinel, is 0 on failure, a missing entry or the sentinel, and otherwise the reported speed |
| LinkProbe.FlagNamesFacts | plugins/inputs/smnet/smnet.go:132 | flag names hold no '\|' and no space; the first one is "up" exactly when the up flag is set |
| LinkProbe.FlagsString | plugins/inputs/smnet/smnet.go:132 | definition of net.Flags.String: the set flags' names joined by "\|", or "0"; AdminStatusIsUpFlag gives what Gather reads from it |
| LinkProbe.AdminStatus | plugins/inputs/smnet/smnet.go:131-137 | the admin status is 0 or 1 |
| LinkProbe.AdminStatusIsUpFlag | plugins/inputs/smnet/smnet.go:131-137 | the admin status derived from the flag text is 1 exactly when the interface is up |
| IPMask.FirstDotted | plugins/inputs/smnet/smnet.go:203-204 | the first address whose text holds '.', or none when no address does |
| IPMask.BeforeSlash | plugins/inputs/smnet/smnet.go:214 | the address part holds no '/' and, with the '/', is a prefix of the text |
| IPMask.MaskParts | plugins/inputs/smnet/smnet.go:210-213 | definition of the Itoa texts of the mask bytes; their meaning is MaskTextRoundTrip |
| IPMask.MaskText | plugins/inputs/smnet/smnet.go:215 | definition of the dotted-decimal mask; MaskTextRoundTrip gives its meaning |
| IPMask.MaskTextRoundTrip | plugins/inputs/smnet/smnet.go:208-215 | the dotted mask splits back into one digit string per mask byte, each denoting that byte |
| IPMask.IPMaskOfShape | plugins/inputs/smnet/smnet.go:199-220 | without a dotted address both parts are empty; with one, the address is its text up to the first '/' |
| IPMask.IPMaskOf | plugins/inputs/smnet/smnet.go:199-220 | definition of the status ParseIPMask reports; IPMaskOfShape and MaskTextRoundTrip give its meaning |
| IPMask.ParseIPMask | plugins/inputs/smnet/smnet.go:199-220 | the loop stops at the first dotted address and renders its mask byte by byte |
| Protocols.Flatten | plugins/inputs/smnet/smnet.go:169-177 | the field names are exactly the flattened names; each value is that of a statistic of the last protocol producing the name |
| Protocols.FlatKey | plugins/inputs/smnet/smnet.go:173-174 | the field name is the protocol, "_", then the statistic, with no upper-case ASCII letter |
| Protocols.FlattenedFrom | plugins/inputs/smnet/smnet.go:169-177 | reference definition of the protocol fields: the names are exactly the flattened names, and each value is a statistic of the last protocol producing that name; Flatten is proved to meet it |
| Protocols.StoreStats | plugins/inputs/smnet/smnet.go:172-176 | the inner loop adds every statistic's name; each holds a value of one of the protocol's statistics; earlier names not produced again keep their value |
| Protocols.StoreOne | plugins/inputs/smnet/smnet.go:173-175 | storing one more statistic keeps every stored name tied to one of its statistics |
| Protocols.FlatKeysSnoc | plugins/inputs/smnet/smnet.go:171-177 | one more protocol adds exactly the names of its statistics |
| Protocols.WinsInSnoc | plugins/inputs/smnet/smnet.go:171-177 | a protocol that does not produce a name leaves that name's value in place |
| Protocols.WinsInLast | plugins/inputs/smnet/smnet.go:171-177 | a value of the last protocol wins |
| Protocols.PrefixStep | plugins/inputs/smnet/smnet.go:171-177 | after one protocol's statistics are stored, the fields are the flattening of the longer prefix |
| Protocols.FlattenedUnique | plugins/inputs/smnet/smnet.go:171-177 | when no two statistics flatten alike, every statistic's value is found under its flattened name |
| Protocols.FailedNetProtoIsEmpty | plugins/inputs/smnet/smnet.go:168-181 | a failed NetProto call yields one record with no fields, not an error |
| Protocols.ProtocolStep | plugins/inputs/smnet/smnet.go:166-182 | no record when protocol statistics are ignored; otherwise one untyped `smnet` record tagged interface=all with the flattened fields |
| Protocols.ProtocolRecords | plugins/inputs/smnet/smnet.go:166-182 | definition of what the protocol step adds: nothing when ignored, otherwise one untyped `smnet` record tagged interface=all whose fields are FlattenedFrom the tables (none when NetProto failed) |
| NetSource.Compile | plugins/inputs/smnet/smnet.go:78-82 | an empty pattern list compiles to no filter and no error; for a non-empty list, the outcome is a failure exactly when the library fails, with its error, and otherwise the library's filter |
| NetSource.CompileStep | plugins/inputs/smnet/smnet.go:78-82 | definition of the lazy compile: a stored filter is kept, otherwise Compile runs; Gather's ensures state its effect on the collector |
| NetSource.ByName | plugins/inputs/smnet/smnet.go:89-93 | every enumerated name is a key; each entry is an enumerated interface of that name |
| NetSource.ByNameLastWins | plugins/inputs/smnet/smnet.go:91-93 | the entry for a name is the last interface of that name |
| NetSource.Reported | plugins/inputs/smnet/smnet.go:96-119 | definition of the filter decision for one sample name; its three modes are AllowListMode, DefaultMode and SkipChecksMode |
| NetSource.InterfaceOf | plugins/inputs/smnet/smnet.go:125 | definition of the lookup of the reported interface, the zero interface when the name is not enumerated; NetInfo.MissingInterfaceIsZero gives the missing case |
| NetSource.IndexByName | plugins/inputs/smnet/smnet.go:90-93 | the loop builds interfacesByName |
| NetSource.Accepted | plugins/inputs/smnet/smnet.go:95-119 | no more samples are selected than were read, and each selected one was read and passes the filter decision; AcceptedCount gives the converse |
| NetSource.AcceptedCount | plugins/inputs/smnet/smnet.go:95-119 | a sample is reported as often as it was read if its name passes the filter decision, and never otherwise |
| NetSource.AcceptedMembership | plugins/inputs/smnet/smnet.go:95-119 | a sample is reported exactly when it was read and passes the filter decision |
| NetSource.AllowListMode | plugins/inputs/smnet/smnet.go:96-105 | with an allow-list, a sample is reported exactly when the filter accepts its name |
| NetSource.DefaultMode | plugins/inputs/smnet/smnet.go:106-118 | otherwise a sample is reported exactly when its interface is enumerated, not loopback, and up |
| NetSource.SkipChecksMode | plugins/inputs/smnet/smnet.go:95-119 | with checks skipped and no allow-list, every sample is reported, in order |
| SMNet.InterfaceRecords | plugins/inputs/smnet/smnet.go:95-164 | one record per selected sample; what one more sample adds is RecordsSnoc and RecordsStep |
| SMNet.ReportSample | plugins/inputs/smnet/smnet.go:121-163 | the statements after the filter decision (ParseIPMask, the flag test, ReadGateways, ReadRunStatus, the field map) build exactly the record InterfaceRecord specifies |
| SMNet.RecordsSnoc | plugins/inputs/smnet/smnet.go:163 | reporting one more sample appends its record |
| SMNet.AcceptedStep | plugins/inputs/smnet/smnet.go:95-119 | one more sample is selected exactly when it passes the filter decision |
| SMNet.RecordsStep | plugins/inputs/smnet/smnet.go:95-164 | a selected sample appends its record; a skipped one changes nothing |
| SMNet.InterfaceFields | plugins/inputs/smnet/smnet.go:142-162 | definition of the eighteen fields of an interface record |
| SMNet.InterfaceRecord | plugins/inputs/smnet/smnet.go:121-163 | definition of one selected sample's record; what it holds is InterfaceRecordCounters and InterfaceRecordProbes |
| SMNet.ReportedParse | plugins/inputs/smnet/smnet.go:125-128 | what a poll needs of its inputs: the interfaces of the reported samples, and only those, have parsable addresses |
| SMNet.InterfaceRecordCounters | plugins/inputs/smnet/smnet.go:121-163 | a counter record named smnet, tagged with the interface, reporting the index, name, MTU and hardware address of the interface of that name (the zero interface when absent) and copying the sample's eight counters |
| SMNet.InterfaceRecordProbes | plugins/inputs/smnet/smnet.go:125-153 | admin_status is 1 exactly for an up interface; gateway, ip and net_mask come from the route listing and the first dotted address; run_status is LinkState's answer, or 0 when it failed; speed is the mapped "speed" entry, or 0 when the query failed, the entry is missing or it is the unknown sentinel |
| SMNet.SMNetIOStats.constructor | plugins/inputs/smnet/smnet.go:187-191 | a new collector has no compiled filter |
| SMNet.SMNetIOStats.ReportSamples | plugins/inputs/smnet/smnet.go:95-164 | the sample loop, with its `continue` branches, emits exactly the records of the selected samples, in order |
| SMNet.SMNetIOStats.Gather | plugins/inputs/smnet/smnet.go:72-185 | errors in source order, each with no record; the filter is compiled only while none is stored and kept; on success, the interface records, then the protocol record |
| NetInfo.InterfaceRecordFacts | plugins/inputs/netinfo/netinfo.go:93-119 | a counter record smnet tagged with the interface; speed, ip, net_mask, gateway, admin_Status and run_state are 0 |
| NetInfo.InterfaceRecordCounters | plugins/inputs/netinfo/netinfo.go:110-117 | the sample's eight counters are copied unchanged |
| NetInfo.InterfaceFields | plugins/inputs/netinfo/netinfo.go:98-118 | definition of the eighteen fields of a netinfo interface record |
| NetInfo.InterfaceRecord | plugins/inputs/netinfo/netinfo.go:93-119 | definition of one selected sample's record; what it holds is InterfaceRecordFacts and InterfaceRecordCounters |
| NetInfo.InterfaceRecords | plugins/inputs/netinfo/netinfo.go:67-120 | definition of the records of the selected samples; what one more sample adds is RecordsStep |
| NetInfo.MissingInterfaceIsZero | plugins/inputs/netinfo/netinfo.go:97-107 | a sample whose name is not enumerated is reported with index 0, empty name, mtu 0 and empty mac |
| NetInfo.RecordsStep | plugins/inputs/netinfo/netinfo.go:67-120 | a selected sample appends its record; a skipped one changes nothing |
| NetInfo.SMNetIOStats.constructor | plugins/inputs/netinfo/netinfo.go:143-146 | a new collector has no compiled filter |
| NetInfo.SMNetIOStats.ReportSamples | plugins/inputs/netinfo/netinfo.go:67-120 | the sample loop emits exactly the records of the selected samples, in order |
| NetInfo.SMNetIOStats.Gather | plugins/inputs/netinfo/netinfo.go:46-141 | the smnet poll's error order, filter handling and record order, with the constant-zero enrichment |
| SystemInfo.LabelledLine | plugins/inputs/systeminfo/systeminfo.go:38-93 | "label：value" stores exactly the value, trailing newline included, under the label's key; text after a second colon is dropped |
| SystemInfo.LabelKey | plugins/inputs/systeminfo/systeminfo.go:43-93 | definition of the seventeen label tests; LabelKeyRange bounds its keys |
| SystemInfo.LineKey | plugins/inputs/systeminfo/systeminfo.go:39-41 | definition of the key a line is stored under; LabelledLine and UnlabelledLine give its meaning |
| SystemInfo.LineValue | plugins/inputs/systeminfo/systeminfo.go:39-42 | definition of the value a line stores; LabelledLine gives its meaning |
| SystemInfo.ApplyLine | plugins/inputs/systeminfo/systeminfo.go:39-93 | definition of one pass of the loop body over a line: its value stored under its key, or no change; LabelledLine and UnlabelledLine give its meaning |
| SystemInfo.LabelMap | plugins/inputs/systeminfo/systeminfo.go:37-110 | definition of the map the loop fills; LabelMapKeys, LastLineWins and LabelMapRange give its meaning |
| SystemInfo.AsWritten | plugins/inputs/systeminfo/systeminfo.go:25-110 | definition of the outcome of the code as written; Gather is proved equal to it and ReportNeverReached exhibits it |
| SystemInfo.EndError | plugins/inputs/systeminfo/systeminfo.go:95-108 | definition of the error returned when the reads end: none at EOF, the read error otherwise |
| SystemInfo.Intended | plugins/inputs/systeminfo/systeminfo.go:25-132 | definition of the intended outcome, with the gauge at EOF; GatherIntended is proved equal to it |
| SystemInfo.Summary | plugins/inputs/systeminfo/systeminfo.go:111-128 | definition of `fields2`: each of the sixteen summary keys with its stored value or ""; SummaryReportsLastValue and SummaryDefaultsEmpty give its meaning |
| SystemInfo.UnlabelledLine | plugins/inputs/systeminfo/systeminfo.go:39-40 | a line without the colon stores nothing |
| SystemInfo.LabelKeyRange | plugins/inputs/systeminfo/systeminfo.go:43-93 | every label is stored under the test key or under a key of the summary |
| SystemInfo.LabelMapKeys | plugins/inputs/systeminfo/systeminfo.go:37-110 | a key is in the map exactly when some line is stored under it |
| SystemInfo.LabelMapRange | plugins/inputs/systeminfo/systeminfo.go:37-110 | the map holds only the test key and keys of the summary |
| SystemInfo.LastLineWins | plugins/inputs/systeminfo/systeminfo.go:43-93 | a later line with the same key overwrites an earlier one |
| SystemInfo.NoLineNoKey | plugins/inputs/systeminfo/systeminfo.go:37-110 | a key no line is stored under is absent |
| SystemInfo.LastPiece | plugins/inputs/systeminfo/systeminfo.go:38-109 | the piece returned together with EOF or an error is still parsed |
| SystemInfo.SummaryReportsLastValue | plugins/inputs/systeminfo/systeminfo.go:111-128 | in the intended gauge a key reports the value of its last line |
| SystemInfo.SummaryDefaultsEmpty | plugins/inputs/systeminfo/systeminfo.go:111-128 | in the intended gauge a key without any line reports "" |
| SystemInfo.ReportNeverReached | plugins/inputs/systeminfo/systeminfo.go:37-130 | a one-line file is read to EOF without error and nothing is reported, while the intended poll reports pro_name |
| SystemInfo.Gather | plugins/inputs/systeminfo/systeminfo.go:25-110 | an open error is returned; otherwise every piece is parsed, EOF gives no error and any other read error is returned, and nothing is reported |
| SystemInfo.GatherIntended | plugins/inputs/systeminfo/systeminfo.go:25-132 | as Gather, but at EOF the `systeminfo` gauge of the sixteen summary keys is reported, with no tags |

## Left out

- Process spawning for `route -n`, its stdout pipe and `Wait` are not modelled. The listing is given as the lines ReadLine returns, without line endings. A command that cannot start is an empty listing.
- Routes.ReadGateways: the source runs `route -n` once per reported interface; the model gives every call of one poll the same listing.
- ReadLine's splitting of over-long lines (`isPrefix`) is not modelled. Each line is whole.
- The ethtool handle (`NewEthtool`, `Close`) is not modelled. Its `LinkState` and `CmdGetMapped` answers are maps per interface name, and a missing entry is a failed query.
- NetIO, net.Interfaces, NetProto and `filter.Compile` are inputs.
- The glob matching of telegraf's filter is not part of this model; a filter is given by its verdict per name.
- IPMask.ParseIPMask requires that the address it picks parses as CIDR, because the source dereferences a nil network there and panics. The smnet poll (`SMNet.ReportedParse`) therefore requires this only of the interfaces of the samples it reports. `net.ParseCIDR` itself is an input: each address carries its mask bytes.
- Text.Lower: lower-cases ASCII letters only. Go's `strings.ToLower` also folds other Unicode letters.
- The flags are the six that Go's `net.Flags.String` names in the version modelled: up, broadcast, loopback, pointtopoint, multicast, running.
- The 64-bit counter and 32-bit run-state widths are not modelled: counters are unbounded naturals.
- The accumulator is modelled as the sequence of records a poll adds. The `error` a poll returns is the `err` result, without its message formatting.
- systeminfo: the file contents are given as the results of the successive `ReadString('\n')` calls, not as bytes. Splitting on the full-width colon works on characters, which equals Go's byte-wise split for valid UTF-8.
- The 17 `if` tests on the label are one function (`SystemInfo.LabelKey`) with the same tests in the same order.
- Two of the modelled files do not compile as written, and the model adopts one reading for each:
  - `plugins/inputs/smnet/smnet.go:202` assigns the two results of `iface.Addrs()` to one variable. The model reads it as `adds, _ := iface.Addrs()`: an interface's addresses are a list given as input, and a failed `Addrs` call is the empty list, which gives empty `ip` and `net_mask`.
  - `plugins/inputs/systeminfo/systeminfo.go:5` imports `fmt` and never uses it. The model reads the file with that import removed.
- `Description`, `SampleConfig` and `init` are not modelled; they only register the plugins and return constant text.

## Findings

| source | as written | input that shows it | evidently intended | confidence | as-written member | corrected member |
|---|---|---|---|---|---|---|
| plugins/inputs/systeminfo/systeminfo.go:37-130 | the read loop leaves only through `return` at EOF or on an error, so the assembly of `fields2` and `AddGauge` after it are never reached and a poll reports nothing | a file holding the single line `产品名称：X` with a newline: the poll returns nil and adds no record | at EOF, leave the loop and add the `systeminfo` gauge of the sixteen summary keys, then return nil (this concerns the file with its unused `fmt` import at line 5 removed, without which it does not compile) | high; not executed | SystemInfo.Gather, SystemInfo.ReportNeverReached | SystemInfo.GatherIntended, SystemInfo.SummaryReportsLastValue |

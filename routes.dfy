/** The parse loop of `ReadGateways` (plugins/inputs/smnet/smnet.go): the
    lines printed by `route -n` become a map from interface name to gateway.
    The first two lines are the header; every later line is whitespace-
    collapsed and split on single spaces, and only a row of exactly eight
    fields counts, with field 7 the interface and field 1 the gateway. The
    first row for an interface wins. */
module Routes {
  import opened Wrappers
  import opened Text
  import opened Space

  /** Number of header lines `route -n` prints before the table. */
  const HeaderLines: nat := 2

  /** Number of columns of a row of the kernel routing table. */
  const RouteColumns: nat := 8

  datatype Route = Route(iface: string, gateway: string)

  /** The fields of one table line: collapsed as deleteExtraSpace does it,
      then split on " ". */
  function Fields(line: string): seq<string>
  {
    Split(Collapse(ReplaceTabs(line)), ' ')
  }

  /** The route a table line contributes: present exactly for an eight-field
      row, whose field 7 names the interface and field 1 the gateway. */
  function RowRoute(line: string): (r: Option<Route>)
    ensures r.Some? <==> |Fields(line)| == RouteColumns
    ensures r.Some? ==> r.value == Route(Fields(line)[7], Fields(line)[1])
  {
    var f := Fields(line);
    if |f| == RouteColumns then Some(Route(f[7], f[1])) else None
  }

  /** The routes of a sequence of table lines, line by line. */
  function RowRoutes(lines: seq<string>): (rs: seq<Option<Route>>)
    ensures |rs| == |lines|
    ensures forall j :: 0 <= j < |lines| ==> rs[j] == RowRoute(lines[j])
  {
    seq(|lines|, j requires 0 <= j < |lines| => RowRoute(lines[j]))
  }

  /** Whether a row is a route for `name`. */
  predicate RouteFor(r: Option<Route>, name: string)
  {
    r.Some? && r.value.iface == name
  }

  /** The gateway map built from the rows below the header, one row after
      the other, a row for an interface already present being ignored. */
  function Table(rows: seq<Option<Route>>): map<string, string>
    decreases |rows|
  {
    if |rows| == 0 then map[]
    else
      var t := Table(rows[..|rows| - 1]);
      match rows[|rows| - 1]
      case None => t
      case Some(r) => if r.iface in t then t else t[r.iface := r.gateway]
  }

  /** The lines of the listing below its header. */
  function Body(output: seq<string>): seq<string>
  {
    if |output| <= HeaderLines then [] else output[HeaderLines..]
  }

  /** An interface is in the table exactly when some row is a route for it. */
  lemma {:induction false} TableKeys(rows: seq<Option<Route>>, name: string)
    ensures name in Table(rows) <==> exists j :: 0 <= j < |rows| && RouteFor(rows[j], name)
    decreases |rows|
  {
    if |rows| > 0 {
      var init := rows[..|rows| - 1];
      TableKeys(init, name);
      if exists j :: 0 <= j < |init| && RouteFor(init[j], name) {
        var j :| 0 <= j < |init| && RouteFor(init[j], name);
        assert rows[j] == init[j];
      }
      if exists j :: 0 <= j < |rows| && RouteFor(rows[j], name) {
        var j :| 0 <= j < |rows| && RouteFor(rows[j], name);
        if j < |init| { assert init[j] == rows[j]; }
      }
    }
  }

  /** First wins: the gateway recorded for an interface is that of its
      first row, whatever later rows say. */
  lemma {:induction false} TableFirstWins(rows: seq<Option<Route>>, j: nat)
    requires j < |rows| && rows[j].Some?
    requires forall k :: 0 <= k < j ==> !RouteFor(rows[k], rows[j].value.iface)
    ensures rows[j].value.iface in Table(rows)
    ensures Table(rows)[rows[j].value.iface] == rows[j].value.gateway
    decreases |rows|
  {
    var r := rows[j].value;
    var init := rows[..|rows| - 1];
    if j < |rows| - 1 {
      assert init[j] == rows[j];
      forall k | 0 <= k < j ensures !RouteFor(init[k], r.iface) {
        assert init[k] == rows[k];
      }
      TableFirstWins(init, j);
    } else {
      TableKeys(init, r.iface);
      forall k | 0 <= k < |init| ensures !RouteFor(init[k], r.iface) {
        assert init[k] == rows[k];
      }
    }
  }

  /** The gateway ReadGateways reports for `name`: the table entry, or the
      empty string (the zero value of a Go map lookup) when there is none. */
  function GatewayOf(output: seq<string>, name: string): string
  {
    var t := Table(RowRoutes(Body(output)));
    if name in t then t[name] else ""
  }

  /** An interface without any route row below the header gets the empty
      gateway. */
  lemma NoRowNoGateway(output: seq<string>, name: string)
    requires forall j :: 0 <= j < |Body(output)| ==> !RouteFor(RowRoute(Body(output)[j]), name)
    ensures GatewayOf(output, name) == ""
  {
    TableKeys(RowRoutes(Body(output)), name);
  }

  /** The gateway of an interface is field 1 of its first eight-field row
      below the header. */
  lemma GatewayOfFirstRow(output: seq<string>, j: nat)
    requires j < |Body(output)| && RowRoute(Body(output)[j]).Some?
    requires forall k :: 0 <= k < j ==> !RouteFor(RowRoute(Body(output)[k]), RowRoute(Body(output)[j]).value.iface)
    ensures GatewayOf(output, Fields(Body(output)[j])[7]) == Fields(Body(output)[j])[1]
  {
    TableFirstWins(RowRoutes(Body(output)), j);
  }

  /** Reading one more line below the header adds its row to the table. */
  lemma BodyStep(output: seq<string>, n: nat)
    requires HeaderLines <= n < |output|
    ensures Table(RowRoutes(Body(output[..n + 1]))) ==
      var t := Table(RowRoutes(Body(output[..n])));
      match RowRoute(output[n])
      case None => t
      case Some(r) => if r.iface in t then t else t[r.iface := r.gateway]
  {
    assert Body(output[..n + 1]) == Body(output[..n]) + [output[n]];
    var rows := RowRoutes(Body(output[..n + 1]));
    assert rows[..|rows| - 1] == RowRoutes(Body(output[..n]));
  }

  /** One table line below the header: collapsed by deleteExtraSpace, split
      on " ", and, for an eight-field row, inserted unless its interface is
      already present. */
  method InsertRow(gateways: map<string, string>, line: string) returns (g: map<string, string>)
    ensures g == match RowRoute(line)
                 case None => gateways
                 case Some(r) => if r.iface in gateways then gateways else gateways[r.iface := r.gateway]
  {
    var collapsed := DeleteExtraSpace(line);
    var tempgate := Split(collapsed, ' ');
    assert tempgate == Fields(line);
    g := gateways;
    if |tempgate| == RouteColumns {
      if tempgate[7] !in g {
        g := g[tempgate[7] := tempgate[1]];
      }
    }
  }

  /** The line loop of ReadGateways over the lines `route -n` printed: the
      counter `i` skips the two header lines, each later line is collapsed by
      deleteExtraSpace and split, and an eight-field row is inserted unless
      its interface is already present. */
  method ParseRoutes(output: seq<string>) returns (gateways: map<string, string>)
    ensures gateways == Table(RowRoutes(Body(output)))
  {
    gateways := map[];
    var i := 0;
    var n := 0;
    while n < |output|
      invariant 0 <= n <= |output|
      invariant i == if n < HeaderLines then n else HeaderLines
      invariant gateways == Table(RowRoutes(Body(output[..n])))
    {
      var line := output[n];
      if i < HeaderLines {
        i := i + 1;
      } else {
        BodyStep(output, n);
        gateways := InsertRow(gateways, line);
      }
      n := n + 1;
    }
    assert output[..n] == output;
  }

  /** ReadGateways(name), with the output of `route -n` given as its lines. */
  method ReadGateways(name: string, output: seq<string>) returns (gateway: string)
    ensures gateway == GatewayOf(output, name)
    ensures gateway != "" ==> exists j :: 0 <= j < |Body(output)| && RouteFor(RowRoute(Body(output)[j]), name)
  {
    var gateways := ParseRoutes(output);
    gateway := if name in gateways then gateways[name] else "";
    TableKeys(RowRoutes(Body(output)), name);
  }
}

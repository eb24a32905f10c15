/** The per-tick sampler of network_utils.py: cumulative interface counters become per-interval
    delta rows, each labelled with the interface's first IPv4 address and a best-effort location.
    The operating-system reads, the HTTP lookup, the private-address test and the random protocol
    pick are parameters (see `Env`); everything else is modelled as written. */
module NetworkUtils {
  import opened Wrappers
  import opened Text
  import Seqs

  /** The value of `datetime.now()` for one tick; copied into rows and snapshots, never inspected. */
  datatype Instant = Instant(ticks: int)

  /** One interface's cumulative counters since boot, as the operating system reports them. */
  datatype Counters = Counters(bytesSent: nat, bytesRecv: nat)

  /** The entry kept per interface in the previous-counter map. */
  datatype Snapshot = Snapshot(bytesSent: nat, bytesRecv: nat, at: Instant)

  type PrevCounters = map<string, Snapshot>

  /** Address families reported per interface; only `AfInet` (IPv4) is ever used. */
  datatype Family = AfInet | AfInet6 | AfOther(code: int)

  datatype Addr = Addr(family: Family, address: string)

  /** The closed set the placeholder protocol label is drawn from. */
  datatype Protocol = TCP | UDP | ICMP | OTHER

  /** The `city`, `region` and `country` fields of a lookup reply; a missing or null field is "". */
  datatype GeoInfo = GeoInfo(city: string, region: string, country: string)

  /** A completed HTTP reply; `body` is None when it is not a JSON object. */
  datatype Response = Response(status: int, body: Option<GeoInfo>)

  /** The collaborators of the sampler and the location lookup that are not modelled:
      `isPrivate` stands for the address-library test (false on unparsable input),
      `lookup` for the location request (None when the request raises), and
      `protocolOf` for the random protocol pick. Each is a function of its argument, so equal
      arguments get equal answers, where the real request and random pick need not. */
  datatype Env = Env(isPrivate: string -> bool, lookup: string -> Option<Response>, protocolOf: string -> Protocol)

  /** One emitted record: per-interval deltas next to the cumulative counters they came from. */
  datatype DeltaRow = DeltaRow(
    timestamp: Instant,
    iface: string,
    ipAddress: string,
    location: string,
    bytesSent: nat,
    bytesRecv: nat,
    cumBytesSent: nat,
    cumBytesRecv: nat,
    protocol: Protocol)

  const Localhost := "Localhost"
  const PrivateNetwork := "Private Network"
  const Unknown := "Unknown"
  const NoAddress := "N/A"
  const Loopback := "127.0.0.1"
  const HttpOk := 200

  /** Python truthiness of the `ip` variable: neither None nor the empty string. */
  predicate Truthy(ip: Option<string>)
  {
    ip.Some? && ip.value != ""
  }

  function NonEmptyPart(): string -> bool
  {
    p => p != ""
  }

  /** The non-empty parts among city, region and country, joined with ", "; "Unknown" if none. */
  function PlaceLabel(info: GeoInfo): (r: string)
    ensures r != ""
    ensures info.city == "" && info.region == "" && info.country == "" ==> r == Unknown
  {
    var fields := [info.city, info.region, info.country];
    var parts := Seqs.Filter(fields, NonEmptyPart());
    if |parts| == 0 then Unknown
    else
      Seqs.FilterMembership(fields, NonEmptyPart(), parts[0]);
      Join(parts, ", ")
  }

  /** The location label for an address: a sentinel for loopback, private and failed lookups,
      otherwise the joined place name of a successful reply. Never empty. */
  function Geolocate(ip: Option<string>, env: Env): (r: string)
    ensures r != ""
    ensures !Truthy(ip) || ip.value == Loopback ==> r == Localhost
    ensures Truthy(ip) && ip.value != Loopback && env.isPrivate(ip.value) ==> r == PrivateNetwork
    ensures Truthy(ip) && ip.value != Loopback && !env.isPrivate(ip.value) ==>
              match env.lookup(ip.value)
              case Some(Response(status, Some(info))) => r == (if status == HttpOk then PlaceLabel(info) else Unknown)
              case _ => r == Unknown
  {
    if !Truthy(ip) || ip.value == Loopback then Localhost
    else if env.isPrivate(ip.value) then PrivateNetwork
    else match env.lookup(ip.value)
      case None => Unknown
      case Some(resp) =>
        if resp.status == HttpOk then
          match resp.body
          case Some(info) => PlaceLabel(info)
          case None => Unknown
        else Unknown
  }

  /** Index `k` holds the first IPv4 entry of `addrs`. */
  ghost predicate IsFirstInet(addrs: seq<Addr>, k: int)
  {
    0 <= k < |addrs| && addrs[k].family == AfInet && forall j :: 0 <= j < k ==> addrs[j].family != AfInet
  }

  /** The address of the first IPv4 entry of the interface's address list (the loop with `break`). */
  function FirstIPv4(addrs: seq<Addr>): (ip: Option<string>)
    ensures ip.None? <==> forall k :: 0 <= k < |addrs| ==> addrs[k].family != AfInet
    ensures ip.Some? ==> exists k :: IsFirstInet(addrs, k) && addrs[k].address == ip.value
    decreases |addrs|
  {
    if |addrs| == 0 then None
    else if addrs[0].family == AfInet then Some(addrs[0].address)
    else
      var rest := FirstIPv4(addrs[1..]);
      assert rest.Some? ==> exists k :: IsFirstInet(addrs[1..], k) && addrs[1..][k].address == rest.value;
      assert rest.Some? ==> exists k :: IsFirstInet(addrs, k) && addrs[k].address == rest.value by {
        if rest.Some? {
          var k :| IsFirstInet(addrs[1..], k) && addrs[1..][k].address == rest.value;
          assert IsFirstInet(addrs, k + 1);
        }
      }
      rest
  }

  /** The `ip_address` and `location` columns of an interface's row. */
  function AddressCells(ifaceAddrs: seq<Addr>, env: Env): (cells: (string, string))
    ensures (forall k :: 0 <= k < |ifaceAddrs| ==> ifaceAddrs[k].family != AfInet) ==> cells == (NoAddress, Unknown)
    ensures forall k :: IsFirstInet(ifaceAddrs, k) ==>
              cells == if ifaceAddrs[k].address != "" then (ifaceAddrs[k].address, Geolocate(Some(ifaceAddrs[k].address), env))
                       else (NoAddress, Unknown)
    ensures cells.1 != ""
  {
    var ip := FirstIPv4(ifaceAddrs);
    (if Truthy(ip) then ip.value else NoAddress, if Truthy(ip) then Geolocate(ip, env) else Unknown)
  }

  /** The address list recorded for an interface, empty when none is recorded. */
  function AddrsOf(addrs: map<string, seq<Addr>>, iface: string): seq<Addr>
  {
    if iface in addrs then addrs[iface] else []
  }

  /** A counter difference with a reset (current below previous) clamped to zero. */
  function ClampedDelta(current: nat, previous: nat): (d: nat)
    ensures current >= previous ==> d == current - previous
    ensures current < previous ==> d == 0
    ensures previous + d >= current && (d == 0 || previous + d == current)
  {
    if current - previous < 0 then 0 else current - previous
  }

  /** The row for one interface that has stats, computed against the previous-counter map. */
  function NewRow(prev: PrevCounters, iface: string, c: Counters, addrs: map<string, seq<Addr>>, now: Instant, env: Env): DeltaRow
  {
    var cells := AddressCells(AddrsOf(addrs, iface), env);
    var sent: nat := if iface in prev then ClampedDelta(c.bytesSent, prev[iface].bytesSent) else 0;
    var recv: nat := if iface in prev then ClampedDelta(c.bytesRecv, prev[iface].bytesRecv) else 0;
    DeltaRow(now, iface, cells.0, cells.1, sent, recv, c.bytesSent, c.bytesRecv, env.protocolOf(iface))
  }

  datatype TickResult = TickResult(rows: seq<DeltaRow>, prev: PrevCounters)

  /** One call of the sampler: walks the selected interfaces in order, skips those without
      stats, emits one row per remaining interface and records its cumulative counters. */
  function Tick(prev: PrevCounters, selected: seq<string>, netIo: map<string, Counters>,
                addrs: map<string, seq<Addr>>, now: Instant, env: Env): (out: TickResult)
    ensures |out.rows| <= |selected|
    ensures prev.Keys <= out.prev.Keys
    decreases |selected|
  {
    if |selected| == 0 then TickResult([], prev)
    else
      var iface := selected[0];
      if iface !in netIo then Tick(prev, selected[1..], netIo, addrs, now, env)
      else
        var c := netIo[iface];
        var row := NewRow(prev, iface, c, addrs, now, env);
        var rest := Tick(prev[iface := Snapshot(c.bytesSent, c.bytesRecv, now)], selected[1..], netIo, addrs, now, env);
        TickResult([row] + rest.rows, rest.prev)
  }

  function Ifaces(rows: seq<DeltaRow>): (names: seq<string>)
    ensures |names| == |rows|
    ensures forall k :: 0 <= k < |rows| ==> names[k] == rows[k].iface
  {
    seq(|rows|, k requires 0 <= k < |rows| => rows[k].iface)
  }

  function HasStats(netIo: map<string, Counters>): string -> bool
  {
    iface => iface in netIo
  }

  /** Everything a row reports besides its deltas: the current counters, the tick's instant,
      the interface's address cells and its protocol label. */
  ghost predicate ReportsCurrent(r: DeltaRow, netIo: map<string, Counters>, addrs: map<string, seq<Addr>>, now: Instant, env: Env)
  {
    && r.iface in netIo
    && r.cumBytesSent == netIo[r.iface].bytesSent
    && r.cumBytesRecv == netIo[r.iface].bytesRecv
    && r.timestamp == now
    && (r.ipAddress, r.location) == AddressCells(AddrsOf(addrs, r.iface), env)
    && r.protocol == env.protocolOf(r.iface)
  }

  /** The deltas of a row measured against the map as it stood before the tick:
      zero on a first observation, otherwise the clamped difference, field by field. */
  ghost predicate DeltaAgainst(r: DeltaRow, prev: PrevCounters, netIo: map<string, Counters>)
    requires r.iface in netIo
  {
    if r.iface !in prev then r.bytesSent == 0 && r.bytesRecv == 0
    else
      && r.bytesSent == ClampedDelta(netIo[r.iface].bytesSent, prev[r.iface].bytesSent)
      && r.bytesRecv == ClampedDelta(netIo[r.iface].bytesRecv, prev[r.iface].bytesRecv)
  }

  predicate Distinct(s: seq<string>)
  {
    forall a, b :: 0 <= a < b < |s| ==> s[a] != s[b]
  }

  /** Rows come one per selected interface that has stats, in selection order. */
  lemma {:induction false} TickRowsFollowSelection(prev: PrevCounters, selected: seq<string>, netIo: map<string, Counters>,
                                                   addrs: map<string, seq<Addr>>, now: Instant, env: Env)
    ensures Ifaces(Tick(prev, selected, netIo, addrs, now, env).rows) == Seqs.Filter(selected, HasStats(netIo))
    decreases |selected|
  {
    if |selected| > 0 {
      var iface := selected[0];
      if iface in netIo {
        var c := netIo[iface];
        var prev' := prev[iface := Snapshot(c.bytesSent, c.bytesRecv, now)];
        TickRowsFollowSelection(prev', selected[1..], netIo, addrs, now, env);
        var rest := Tick(prev', selected[1..], netIo, addrs, now, env);
        var out := Tick(prev, selected, netIo, addrs, now, env);
        assert out.rows == [NewRow(prev, iface, c, addrs, now, env)] + rest.rows;
        assert Ifaces(out.rows) == [iface] + Ifaces(rest.rows);
      } else {
        TickRowsFollowSelection(prev, selected[1..], netIo, addrs, now, env);
      }
    }
  }

  /** Every row reports the interface's current cumulative counters and address cells. */
  lemma {:induction false} TickRowsReportCurrent(prev: PrevCounters, selected: seq<string>, netIo: map<string, Counters>,
                                                 addrs: map<string, seq<Addr>>, now: Instant, env: Env)
    ensures forall r :: r in Tick(prev, selected, netIo, addrs, now, env).rows ==> ReportsCurrent(r, netIo, addrs, now, env)
    decreases |selected|
  {
    if |selected| > 0 {
      var iface := selected[0];
      if iface in netIo {
        var c := netIo[iface];
        TickRowsReportCurrent(prev[iface := Snapshot(c.bytesSent, c.bytesRecv, now)], selected[1..], netIo, addrs, now, env);
      } else {
        TickRowsReportCurrent(prev, selected[1..], netIo, addrs, now, env);
      }
    }
  }

  /** After a tick every interface that produced a row holds its current counters in the map;
      every other entry is untouched and no other key appears. */
  lemma {:induction false} TickUpdatesPrev(prev: PrevCounters, selected: seq<string>, netIo: map<string, Counters>,
                                           addrs: map<string, seq<Addr>>, now: Instant, env: Env)
    ensures var out := Tick(prev, selected, netIo, addrs, now, env);
      && out.prev.Keys == prev.Keys + (set i | i in selected && i in netIo)
      && (forall i :: i in selected && i in netIo ==>
            out.prev[i] == Snapshot(netIo[i].bytesSent, netIo[i].bytesRecv, now))
      && (forall i :: i in prev && !(i in selected && i in netIo) ==> out.prev[i] == prev[i])
    decreases |selected|
  {
    if |selected| > 0 {
      var iface := selected[0];
      assert forall i :: i in selected <==> i == iface || i in selected[1..] by {
        assert selected == [iface] + selected[1..];
      }
      if iface in netIo {
        var c := netIo[iface];
        TickUpdatesPrev(prev[iface := Snapshot(c.bytesSent, c.bytesRecv, now)], selected[1..], netIo, addrs, now, env);
      } else {
        TickUpdatesPrev(prev, selected[1..], netIo, addrs, now, env);
      }
    }
  }

  /** Every row's interface was selected. */
  lemma TickRowsFromSelection(prev: PrevCounters, selected: seq<string>, netIo: map<string, Counters>,
                              addrs: map<string, seq<Addr>>, now: Instant, env: Env)
    ensures forall r :: r in Tick(prev, selected, netIo, addrs, now, env).rows ==> r.iface in selected
  {
    var rows := Tick(prev, selected, netIo, addrs, now, env).rows;
    TickRowsFollowSelection(prev, selected, netIo, addrs, now, env);
    forall r | r in rows
      ensures r.iface in selected
    {
      var k :| 0 <= k < |rows| && rows[k] == r;
      assert Ifaces(rows)[k] == r.iface;
      Seqs.FilterMembership(selected, HasStats(netIo), r.iface);
    }
  }

  /** With each interface selected once (as the multiselect widget guarantees), every row's deltas
      are measured against the map as it stood before the tick. */
  lemma {:induction false} TickDeltas(prev: PrevCounters, selected: seq<string>, netIo: map<string, Counters>,
                                      addrs: map<string, seq<Addr>>, now: Instant, env: Env)
    requires Distinct(selected)
    ensures forall r :: r in Tick(prev, selected, netIo, addrs, now, env).rows ==> r.iface in netIo && DeltaAgainst(r, prev, netIo)
    decreases |selected|
  {
    TickRowsReportCurrent(prev, selected, netIo, addrs, now, env);
    if |selected| > 0 {
      var iface := selected[0];
      var tail := selected[1..];
      assert Distinct(tail);
      if iface in netIo {
        var c := netIo[iface];
        var prev' := prev[iface := Snapshot(c.bytesSent, c.bytesRecv, now)];
        TickDeltas(prev', tail, netIo, addrs, now, env);
        TickRowsFromSelection(prev', tail, netIo, addrs, now, env);
        var rest := Tick(prev', tail, netIo, addrs, now, env).rows;
        forall r | r in rest
          ensures DeltaAgainst(r, prev, netIo)
        {
          assert r.iface != iface;
          assert DeltaAgainst(r, prev', netIo);
        }
      } else {
        TickDeltas(prev, tail, netIo, addrs, now, env);
      }
    }
  }

  /** Each non-empty place field appears in the label. */
  lemma PlaceLabelMentionsParts(info: GeoInfo)
    ensures info.city != "" ==> Contains(PlaceLabel(info), info.city)
    ensures info.region != "" ==> Contains(PlaceLabel(info), info.region)
    ensures info.country != "" ==> Contains(PlaceLabel(info), info.country)
  {
    var fields := [info.city, info.region, info.country];
    forall p | p in fields && p != ""
      ensures Contains(PlaceLabel(info), p)
    {
      PlaceLabelMentions(info, p);
    }
  }

  lemma PlaceLabelMentions(info: GeoInfo, p: string)
    requires p in [info.city, info.region, info.country] && p != ""
    ensures Contains(PlaceLabel(info), p)
  {
    var fields := [info.city, info.region, info.country];
    var parts := Seqs.Filter(fields, NonEmptyPart());
    Seqs.FilterMembership(fields, NonEmptyPart(), p);
    var k :| 0 <= k < |parts| && parts[k] == p;
    assert PlaceLabel(info) == Join(parts, ", ");
    JoinContainsParts(parts, ", ", k);
  }

  /** The fields kept for the label: the non-empty ones, in city, region, country order. */
  lemma PresentFields(info: GeoInfo)
    ensures Seqs.Filter([info.city, info.region, info.country], NonEmptyPart()) ==
              (if info.city != "" then [info.city] else []) +
              (if info.region != "" then [info.region] else []) +
              (if info.country != "" then [info.country] else [])
  {
    var fields := [info.city, info.region, info.country];
    var present := NonEmptyPart();
    assert fields[1..] == [info.region, info.country] && fields[1..][1..] == [info.country];
    assert fields[1..][1..][1..] == [];
    assert Seqs.Filter(fields[1..][1..], present) == (if info.country != "" then [info.country] else []);
    assert Seqs.Filter(fields[1..], present) ==
             (if info.region != "" then [info.region] else []) + Seqs.Filter(fields[1..][1..], present);
    assert Seqs.Filter(fields, present) ==
             (if info.city != "" then [info.city] else []) + Seqs.Filter(fields[1..], present);
  }

  /** The label for every combination of present fields: the present ones joined by ", "
      in city, region, country order, or "Unknown" when none is present. */
  lemma PlaceLabelShapes(info: GeoInfo)
    ensures var c, r, n := info.city, info.region, info.country;
      && (c == "" && r == "" && n == "" ==> PlaceLabel(info) == Unknown)
      && (c != "" && r == "" && n == "" ==> PlaceLabel(info) == c)
      && (c == "" && r != "" && n == "" ==> PlaceLabel(info) == r)
      && (c == "" && r == "" && n != "" ==> PlaceLabel(info) == n)
      && (c != "" && r != "" && n == "" ==> PlaceLabel(info) == c + ", " + r)
      && (c != "" && r == "" && n != "" ==> PlaceLabel(info) == c + ", " + n)
      && (c == "" && r != "" && n != "" ==> PlaceLabel(info) == r + ", " + n)
      && (c != "" && r != "" && n != "" ==> PlaceLabel(info) == c + ", " + r + ", " + n)
  {
    var c, r, n := info.city, info.region, info.country;
    PresentFields(info);
    if c != "" && r != "" {
      JoinSnoc([c], ", ", r);
      assert [c] + [r] == [c, r];
      if n != "" {
        JoinSnoc([c, r], ", ", n);
        assert [c] + [r] + [n] == [c, r] + [n] == [c, r, n];
      }
    } else if c != "" && n != "" {
      JoinSnoc([c], ", ", n);
      assert [c] + [n] == [c, n];
    } else if r != "" && n != "" {
      JoinSnoc([r], ", ", n);
      assert [r] + [n] == [r, n];
    }
  }

  /** One step of a tick on a non-empty selection. */
  lemma TickStep(prev: PrevCounters, selected: seq<string>, netIo: map<string, Counters>,
                 addrs: map<string, seq<Addr>>, now: Instant, env: Env)
    requires |selected| > 0
    ensures var iface := selected[0];
      Tick(prev, selected, netIo, addrs, now, env) ==
        if iface !in netIo then Tick(prev, selected[1..], netIo, addrs, now, env)
        else
          var c := netIo[iface];
          var rest := Tick(prev[iface := Snapshot(c.bytesSent, c.bytesRecv, now)], selected[1..], netIo, addrs, now, env);
          TickResult([NewRow(prev, iface, c, addrs, now, env)] + rest.rows, rest.prev)
  {
  }

  /** Splitting a selection splits the tick: the second part runs on the map the first part left. */
  lemma {:induction false} TickConcat(prev: PrevCounters, a: seq<string>, b: seq<string>, netIo: map<string, Counters>,
                                      addrs: map<string, seq<Addr>>, now: Instant, env: Env)
    ensures var first := Tick(prev, a, netIo, addrs, now, env);
      var second := Tick(first.prev, b, netIo, addrs, now, env);
      Tick(prev, a + b, netIo, addrs, now, env) == TickResult(first.rows + second.rows, second.prev)
    decreases |a|
  {
    if |a| == 0 {
      assert a + b == b;
    } else {
      var ab := a + b;
      assert ab[0] == a[0] && ab[1..] == a[1..] + b;
      TickStep(prev, a, netIo, addrs, now, env);
      TickStep(prev, ab, netIo, addrs, now, env);
      var iface := a[0];
      if iface in netIo {
        var c := netIo[iface];
        var p1 := prev[iface := Snapshot(c.bytesSent, c.bytesRecv, now)];
        var row := NewRow(prev, iface, c, addrs, now, env);
        var first := Tick(p1, a[1..], netIo, addrs, now, env);
        var second := Tick(first.prev, b, netIo, addrs, now, env);
        TickConcat(p1, a[1..], b, netIo, addrs, now, env);
        assert [row] + (first.rows + second.rows) == ([row] + first.rows) + second.rows;
      } else {
        TickConcat(prev, a[1..], b, netIo, addrs, now, env);
      }
    }
  }

  /** An interface selected again later in the same tick is measured against the entry its
      earlier occurrence just wrote, so the row of the later occurrence has zero deltas. That row
      stands right after the rows of everything selected before it. */
  lemma RepeatedInterfaceSeesOwnUpdate(prev: PrevCounters, pre: seq<string>, mid: seq<string>, post: seq<string>,
                                       iface: string, netIo: map<string, Counters>,
                                       addrs: map<string, seq<Addr>>, now: Instant, env: Env)
    requires iface in netIo
    ensures var before := Tick(prev, pre + [iface] + mid, netIo, addrs, now, env);
      var out := Tick(prev, pre + [iface] + mid + [iface] + post, netIo, addrs, now, env);
      && |before.rows| < |out.rows|
      && out.rows[|before.rows|].iface == iface
      && out.rows[|before.rows|].bytesSent == 0 && out.rows[|before.rows|].bytesRecv == 0
  {
    var a := pre + [iface] + mid;
    var before := Tick(prev, a, netIo, addrs, now, env);
    assert a + ([iface] + post) == pre + [iface] + mid + [iface] + post;
    TickConcat(prev, a, [iface] + post, netIo, addrs, now, env);
    TickUpdatesPrev(prev, a, netIo, addrs, now, env);
    assert iface in a;
    var c := netIo[iface];
    assert before.prev[iface] == Snapshot(c.bytesSent, c.bytesRecv, now);
    assert ([iface] + post)[0] == iface;
    var second := Tick(before.prev, [iface] + post, netIo, addrs, now, env);
    assert second.rows[0] == NewRow(before.prev, iface, c, addrs, now, env);
  }

  /** A counter reset on one field is clamped without touching the other field, and the map
      takes the new readings: previous eth0 = (1000, 2000), current = (1500, 1800). */
  lemma CounterResetScenario(env: Env, now: Instant, earlier: Instant)
    ensures var out := Tick(map["eth0" := Snapshot(1000, 2000, earlier)], ["eth0"],
                            map["eth0" := Counters(1500, 1800)], map[], now, env);
      && |out.rows| == 1
      && out.rows[0].bytesSent == 500 && out.rows[0].bytesRecv == 0
      && out.rows[0].cumBytesSent == 1500 && out.rows[0].cumBytesRecv == 1800
      && out.rows[0].ipAddress == NoAddress && out.rows[0].location == Unknown
      && out.prev == map["eth0" := Snapshot(1500, 1800, now)]
  {
  }

  /** Every recorded entry of an interface that has stats already holds its current counters. */
  ghost predicate Settled(prev: PrevCounters, netIo: map<string, Counters>)
  {
    forall i :: i in prev && i in netIo ==>
      prev[i].bytesSent == netIo[i].bytesSent && prev[i].bytesRecv == netIo[i].bytesRecv
  }

  /** When no recorded counter differs from the current reading, every row of the tick has zero
      deltas, whatever the selection (repeats included), and the map stays settled. */
  lemma {:induction false} SettledTickZeroDeltas(prev: PrevCounters, selected: seq<string>, netIo: map<string, Counters>,
                                                 addrs: map<string, seq<Addr>>, now: Instant, env: Env)
    requires Settled(prev, netIo)
    ensures var out := Tick(prev, selected, netIo, addrs, now, env);
      && Settled(out.prev, netIo)
      && forall r :: r in out.rows ==> r.bytesSent == 0 && r.bytesRecv == 0
    decreases |selected|
  {
    if |selected| > 0 {
      var iface := selected[0];
      if iface in netIo {
        var c := netIo[iface];
        var prev' := prev[iface := Snapshot(c.bytesSent, c.bytesRecv, now)];
        assert Settled(prev', netIo);
        SettledTickZeroDeltas(prev', selected[1..], netIo, addrs, now, env);
        var row := NewRow(prev, iface, c, addrs, now, env);
        assert row.bytesSent == 0 && row.bytesRecv == 0;
      } else {
        SettledTickZeroDeltas(prev, selected[1..], netIo, addrs, now, env);
      }
    }
  }

  /** The loopback address and an address the private-range test accepts never reach the lookup. */
  lemma GeolocateSentinels(env: Env)
    ensures Geolocate(Some("127.0.0.1"), env) == Localhost
    ensures Geolocate(None, env) == Localhost
    ensures env.isPrivate("192.168.1.5") ==> Geolocate(Some("192.168.1.5"), env) == PrivateNetwork
    ensures !env.isPrivate("8.8.8.8") && env.lookup("8.8.8.8").None? ==> Geolocate(Some("8.8.8.8"), env) == Unknown
  {
  }
}

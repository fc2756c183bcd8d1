/**
 * `detect_arp_spoofing`: reads an ARP table and reports
 *   - every MAC (compared lower-cased) that answers for more than one ip,
 *   - a gateway ip that appears on more than one row,
 *   - every broadcast or multicast row, for information only,
 * in that order. The gateway the source looks up inside the function is a
 * parameter here.
 */
module Detector {
  import opened Wrappers
  import opened PyText
  import opened ArpTable
  import opened GatewayResolver
  import AddressFormat

  const High: string := "high"
  const Medium: string := "medium"
  const NoThreat: string := "none"

  datatype Finding =
    | MultipleIps(mac: string, ips: seq<string>)
    | GatewayMultipleMacs(ip: string, macs: seq<string>)
    | InfoBroadcast(ip: string, mac: string)
    | InfoMulticast(ip: string, mac: string)

  /** The `"type"` field of a finding. */
  function TypeName(f: Finding): string {
    match f
    case MultipleIps(_, _) => "multiple_ips"
    case GatewayMultipleMacs(_, _) => "gateway_multiple_macs"
    case InfoBroadcast(_, _) => "info_broadcast"
    case InfoMulticast(_, _) => "info_multicast"
  }

  /** The `"threat_level"` field of a finding. */
  function Level(f: Finding): string {
    match f
    case MultipleIps(_, _) => Medium
    case GatewayMultipleMacs(_, _) => High
    case _ => NoThreat
  }

  /** The `"message"` field of a finding. */
  function Message(f: Finding): string {
    match f
    case MultipleIps(mac, ips) =>
      "\U{26A0}\U{FE0F} Şüpheli: " + mac + " MAC adresine sahip " + Decimal(|ips|)
      + " farklı IP adresi var: " + Join(ips, ", ")
    case GatewayMultipleMacs(ip, _) =>
      "\U{274C} TEHLİKE: Ağ geçidi " + ip + " için birden fazla MAC adresi var!"
    case InfoBroadcast(ip, mac) =>
      "\U{1F4CC} Bilgi: Broadcast MAC adresi: IP=" + ip + ", MAC=" + mac
    case InfoMulticast(ip, mac) =>
      "\U{1F4CC} Bilgi: Multicast MAC adresi: IP=" + ip + ", MAC=" + mac
  }

  const BroadcastMac: string := "ff:ff:ff:ff:ff:ff"
  const MulticastPrefixes: seq<string> := ["01:", "03:", "05:", "07:", "09:", "0b:", "0d:", "0f:"]

  predicate IsBroadcast(mac: string) { mac == BroadcastMac }

  predicate IsMulticast(mac: string) {
    exists i :: 0 <= i < |MulticastPrefixes| && StartsWith(mac, MulticastPrefixes[i])
  }

  /** A row the detector does not count towards `multiple_ips` (tested on the
      lower-cased MAC). */
  predicate IsSpecial(mac: string) { IsBroadcast(mac) || IsMulticast(mac) }

  function Key(e: ArpEntry): string { Lower(e.mac) }

  // ------------------------------------------------------ the specification

  /** The keys of `mac_to_ips` in insertion order: the distinct lower-cased
      MACs of the counted rows, by first appearance. */
  function MacOrder(table: seq<ArpEntry>): seq<string> {
    if table == [] then []
    else
      var prev := MacOrder(table[..|table| - 1]);
      var mac := Key(table[|table| - 1]);
      if IsSpecial(mac) || mac in prev then prev else prev + [mac]
  }

  /** The ips of the rows whose lower-cased MAC is `mac`, in table order. */
  function IpsOf(table: seq<ArpEntry>, mac: string): seq<string> {
    if table == [] then []
    else
      var last := table[|table| - 1];
      IpsOf(table[..|table| - 1], mac) + (if Key(last) == mac then [last.ip] else [])
  }

  function MultipleIpsFindings(keys: seq<string>, table: seq<ArpEntry>): seq<Finding> {
    if keys == [] then []
    else
      var mac := keys[|keys| - 1];
      MultipleIpsFindings(keys[..|keys| - 1], table)
      + (if |IpsOf(table, mac)| > 1 then [MultipleIps(mac, IpsOf(table, mac))] else [])
  }

  /** The rows whose ip is `ip` (the list comprehension over the table). */
  function RowsWithIp(table: seq<ArpEntry>, ip: string): (r: seq<ArpEntry>)
    ensures forall e :: e in r ==> e in table && e.ip == ip
    ensures forall e :: e in table && e.ip == ip ==> e in r
    ensures |r| <= |table|
  {
    if table == [] then []
    else
      var last := table[|table| - 1];
      RowsWithIp(table[..|table| - 1], ip) + (if last.ip == ip then [last] else [])
  }

  function MacsOf(rows: seq<ArpEntry>): (r: seq<string>)
    ensures |r| == |rows|
    ensures forall i :: 0 <= i < |rows| ==> r[i] == rows[i].mac
  {
    seq(|rows|, i requires 0 <= i < |rows| => rows[i].mac)
  }

  predicate GatewayResolved(gw: Gateway) {
    gw.ip != Unknown && gw.mac != Unknown
  }

  function GatewayFindings(table: seq<ArpEntry>, gw: Gateway): seq<Finding> {
    if GatewayResolved(gw) && |RowsWithIp(table, gw.ip)| > 1
    then [GatewayMultipleMacs(gw.ip, MacsOf(RowsWithIp(table, gw.ip)))]
    else []
  }

  /** The information finding a special row yields. */
  function InfoFor(e: ArpEntry): Option<Finding> {
    var mac := Key(e);
    if IsBroadcast(mac) then Some(InfoBroadcast(e.ip, mac))
    else if IsMulticast(mac) then Some(InfoMulticast(e.ip, mac))
    else None
  }

  function InfoFindings(table: seq<ArpEntry>): seq<Finding> {
    if table == [] then []
    else
      var last := table[|table| - 1];
      InfoFindings(table[..|table| - 1])
      + (match InfoFor(last) case Some(f) => [f] case None => [])
  }

  /** The findings that count as threats: everything before the information
      part. */
  function ThreatFindings(table: seq<ArpEntry>, gw: Gateway): seq<Finding> {
    MultipleIpsFindings(MacOrder(table), table) + GatewayFindings(table, gw)
  }

  /** `detect_arp_spoofing` as a value. */
  function Detect(table: seq<ArpEntry>, gw: Gateway): seq<Finding> {
    ThreatFindings(table, gw) + InfoFindings(table)
  }

  // ------------------------------------------------------------ the method

  /** The first loop: `mac_to_ips` and the order its keys were inserted in. */
  method CollectMacIps(table: seq<ArpEntry>) returns (keys: seq<string>, macToIps: map<string, seq<string>>)
    ensures keys == MacOrder(table)
    ensures forall k :: k in macToIps <==> k in keys
    ensures forall k :: k in macToIps ==> macToIps[k] == IpsOf(table, k)
  {
    macToIps := map[];
    keys := [];
    for i := 0 to |table|
      invariant keys == MacOrder(table[..i])
      invariant forall k :: k in macToIps <==> k in keys
      invariant forall k :: k in macToIps ==> macToIps[k] == IpsOf(table[..i], k)
    {
      var mac := Lower(table[i].mac);
      var ip := table[i].ip;
      assert table[..i + 1][..i] == table[..i];
      MacOrderCounted(table[..i]);
      if !IsSpecial(mac) {
        if mac in macToIps {
          macToIps := macToIps[mac := macToIps[mac] + [ip]];
        } else {
          OrderIffIps(table[..i], mac);
          keys := keys + [mac];
          macToIps := macToIps[mac := [ip]];
        }
      }
    }
    assert table[..|table|] == table;
  }

  /** The second loop: one `multiple_ips` finding per key with two ips or more. */
  method ReportMultipleIps(table: seq<ArpEntry>, keys: seq<string>, macToIps: map<string, seq<string>>)
    returns (found: seq<Finding>)
    requires forall k :: k in keys ==> k in macToIps && macToIps[k] == IpsOf(table, k)
    ensures found == MultipleIpsFindings(keys, table)
  {
    found := [];
    for j := 0 to |keys|
      invariant found == MultipleIpsFindings(keys[..j], table)
    {
      var mac := keys[j];
      var ips := macToIps[mac];
      assert keys[..j + 1][..j] == keys[..j];
      if |ips| > 1 {
        found := found + [MultipleIps(mac, ips)];
      }
    }
    assert keys[..|keys|] == keys;
  }

  /** The information loop. */
  method CollectInfo(table: seq<ArpEntry>) returns (info: seq<Finding>)
    ensures info == InfoFindings(table)
  {
    info := [];
    for i := 0 to |table|
      invariant info == InfoFindings(table[..i])
    {
      assert table[..i + 1][..i] == table[..i];
      var mac := Lower(table[i].mac);
      if IsBroadcast(mac) {
        info := info + [InfoBroadcast(table[i].ip, mac)];
      } else if IsMulticast(mac) {
        info := info + [InfoMulticast(table[i].ip, mac)];
      }
    }
    assert table[..|table|] == table;
  }

  method DetectArpSpoofing(table: seq<ArpEntry>, gw: Gateway) returns (suspicious: seq<Finding>)
    ensures suspicious == Detect(table, gw)
  {
    var keys, macToIps := CollectMacIps(table);
    suspicious := ReportMultipleIps(table, keys, macToIps);
    assert suspicious == MultipleIpsFindings(MacOrder(table), table);
    if GatewayResolved(gw) {
      var gatewayRows := RowsWithIp(table, gw.ip);
      if |gatewayRows| > 0 {
        if |gatewayRows| > 1 {
          suspicious := suspicious + [GatewayMultipleMacs(gw.ip, MacsOf(gatewayRows))];
        }
      }
    }
    assert suspicious == ThreatFindings(table, gw);
    var info := CollectInfo(table);
    suspicious := suspicious + info;
  }

  // ------------------------------------------------------------ properties

  /** The keys are counted (not special) MACs and are pairwise distinct. */
  lemma {:induction false} MacOrderCounted(table: seq<ArpEntry>)
    ensures forall k :: k in MacOrder(table) ==> !IsSpecial(k)
    ensures forall i, j :: 0 <= i < j < |MacOrder(table)| ==> MacOrder(table)[i] != MacOrder(table)[j]
  {
    if table != [] {
      MacOrderCounted(table[..|table| - 1]);
    }
  }

  /** Every key comes from some row of the table. */
  lemma {:induction false} KeyHasRow(table: seq<ArpEntry>, mac: string)
    requires mac in MacOrder(table)
    ensures exists j :: 0 <= j < |table| && Key(table[j]) == mac
  {
    var front := table[..|table| - 1];
    if mac in MacOrder(front) {
      KeyHasRow(front, mac);
      var j :| 0 <= j < |front| && Key(front[j]) == mac;
      assert table[j] == front[j];
    }
  }

  /** The lower-cased MAC of every counted row is a key. */
  lemma RowKeyIsKey(table: seq<ArpEntry>, j: nat)
    requires j < |table| && !IsSpecial(Key(table[j]))
    ensures Key(table[j]) in MacOrder(table)
  {
    IpsOfOne(table, j);
    OrderIffIps(table, Key(table[j]));
  }

  /** Keys come in order of first appearance: a row carrying a later key is
      preceded by a row carrying each earlier key. */
  lemma {:induction false} MacOrderFirstSeen(table: seq<ArpEntry>, k: nat, k2: nat, j2: nat)
    requires k < k2 < |MacOrder(table)|
    requires j2 < |table| && Key(table[j2]) == MacOrder(table)[k2]
    ensures exists j :: 0 <= j < j2 && Key(table[j]) == MacOrder(table)[k]
    decreases |table|
  {
    var n := |table| - 1;
    var front := table[..n];
    var prev := MacOrder(front);
    var order := MacOrder(table);
    MacOrderCounted(table);
    if k2 < |prev| {
      assert order[k] == prev[k] && order[k2] == prev[k2];
      var j2' := j2;
      if j2 == n {
        KeyHasRow(front, prev[k2]);
        j2' :| 0 <= j2' < n && Key(front[j2']) == prev[k2];
      } else {
        assert front[j2] == table[j2];
      }
      MacOrderFirstSeen(front, k, k2, j2');
      var j :| 0 <= j < j2' && Key(front[j]) == prev[k];
      assert table[j] == front[j];
    } else {
      assert order == prev + [Key(table[n])] && k2 == |prev|;
      assert order[k] == prev[k];
      KeyHasRow(front, prev[k]);
      var j :| 0 <= j < n && Key(front[j]) == prev[k];
      assert table[j] == front[j];
      if j2 < n {
        assert front[j2] == table[j2];
        RowKeyIsKey(front, j2);
      }
    }
  }

  /** A counted MAC is a key exactly when some row carries it. */
  lemma {:induction false} OrderIffIps(table: seq<ArpEntry>, mac: string)
    requires !IsSpecial(mac)
    ensures mac in MacOrder(table) <==> |IpsOf(table, mac)| >= 1
  {
    if table != [] {
      OrderIffIps(table[..|table| - 1], mac);
    }
  }

  /** What the `multiple_ips` part holds, given distinct keys. */
  lemma {:induction false} MultipleIpsMembers(keys: seq<string>, table: seq<ArpEntry>)
    ensures forall f :: f in MultipleIpsFindings(keys, table) ==>
              f.MultipleIps? && f.mac in keys && f.ips == IpsOf(table, f.mac) && |f.ips| > 1
    ensures forall k :: k in keys && |IpsOf(table, k)| > 1 ==>
              MultipleIps(k, IpsOf(table, k)) in MultipleIpsFindings(keys, table)
  {
    if keys != [] {
      var prefix := keys[..|keys| - 1];
      MultipleIpsMembers(prefix, table);
      var last := keys[|keys| - 1];
      assert keys == prefix + [last];
      forall k | k in keys && |IpsOf(table, k)| > 1
        ensures MultipleIps(k, IpsOf(table, k)) in MultipleIpsFindings(keys, table)
      {
        if k != last {
          assert k in prefix;
        }
      }
    }
  }

  /** No MAC is reported twice. */
  lemma {:induction false} MultipleIpsDistinct(keys: seq<string>, table: seq<ArpEntry>)
    requires forall i, j :: 0 <= i < j < |keys| ==> keys[i] != keys[j]
    ensures var fs := MultipleIpsFindings(keys, table);
            forall i, j :: 0 <= i < j < |fs| ==>
              fs[i].MultipleIps? && fs[j].MultipleIps? && fs[i].mac != fs[j].mac
  {
    if keys != [] {
      var prefix := keys[..|keys| - 1];
      var last := keys[|keys| - 1];
      assert keys == prefix + [last];
      forall k | 0 <= k < |prefix| ensures prefix[k] != last {
        assert keys[k] == prefix[k];
      }
      MultipleIpsDistinct(prefix, table);
      assert var fs := MultipleIpsFindings(prefix, table);
            forall i, j :: 0 <= i < j < |fs| ==>
              fs[i].MultipleIps? && fs[j].MultipleIps? && fs[i].mac != fs[j].mac;
      MultipleIpsMembers(prefix, table);
      MultipleIpsMembers(keys, table);
      var fs0 := MultipleIpsFindings(prefix, table);
      var fs := MultipleIpsFindings(keys, table);
      assert fs == fs0 + (if |IpsOf(table, last)| > 1 then [MultipleIps(last, IpsOf(table, last))] else []);
      forall i, j | 0 <= i < j < |fs|
        ensures fs[i].MultipleIps? && fs[j].MultipleIps? && fs[i].mac != fs[j].mac
      {
        assert fs[i] in fs && fs[j] in fs;
        if j >= |fs0| {
          assert fs[j].mac == last;
          assert fs[i] == fs0[i] && fs0[i] in fs0;
          assert fs0[i].mac in prefix;
        } else {
          assert fs[i] == fs0[i] && fs[j] == fs0[j];
        }
      }
    }
  }

  /** A `multiple_ips` finding is reported for a MAC exactly when the MAC is
      not broadcast or multicast and two or more rows carry it (compared
      lower-cased); the finding lists those rows' ips in table order, and no
      MAC is reported twice. */
  lemma MultipleIpsIff(table: seq<ArpEntry>, gw: Gateway)
    ensures forall f :: f in Detect(table, gw) && f.MultipleIps? ==>
              !IsSpecial(f.mac) && f.ips == IpsOf(table, f.mac) && |f.ips| >= 2
    ensures forall mac :: !IsSpecial(mac) && |IpsOf(table, mac)| >= 2 ==>
              MultipleIps(mac, IpsOf(table, mac)) in Detect(table, gw)
    ensures var fs := MultipleIpsFindings(MacOrder(table), table);
            forall i, j :: 0 <= i < j < |fs| ==>
              fs[i].MultipleIps? && fs[j].MultipleIps? && fs[i].mac != fs[j].mac
  {
    var keys := MacOrder(table);
    var m := MultipleIpsFindings(keys, table);
    var n := InfoFindings(table);
    MacOrderCounted(table);
    MultipleIpsMembers(keys, table);
    MultipleIpsDistinct(keys, table);
    InfoKinds(table);
    assert Detect(table, gw) == m + GatewayFindings(table, gw) + n;
    forall f | f in Detect(table, gw) && f.MultipleIps?
      ensures !IsSpecial(f.mac) && f.ips == IpsOf(table, f.mac) && |f.ips| >= 2
    {
    }
    forall mac | !IsSpecial(mac) && |IpsOf(table, mac)| >= 2
      ensures MultipleIps(mac, IpsOf(table, mac)) in Detect(table, gw)
    {
      OrderIffIps(table, mac);
    }
  }

  lemma {:induction false} InfoKinds(table: seq<ArpEntry>)
    ensures forall f :: f in InfoFindings(table) ==> f.InfoBroadcast? || f.InfoMulticast?
    ensures forall f :: f in InfoFindings(table) ==> exists e :: e in table && InfoFor(e) == Some(f)
    ensures forall e :: e in table && IsSpecial(Key(e)) ==> InfoFor(e).value in InfoFindings(table)
  {
    if table != [] {
      var prefix := table[..|table| - 1];
      InfoKinds(prefix);
      assert table == prefix + [table[|table| - 1]];
    }
  }

  /** One information finding per broadcast or multicast row, and nothing
      else in that part. */
  lemma InfoIff(table: seq<ArpEntry>, gw: Gateway)
    ensures forall e :: e in table && IsSpecial(Key(e)) ==> InfoFor(e).value in Detect(table, gw)
    ensures forall f :: f in Detect(table, gw) && (f.InfoBroadcast? || f.InfoMulticast?) ==>
              exists e :: e in table && InfoFor(e) == Some(f)
  {
    InfoKinds(table);
    MultipleIpsMembers(MacOrder(table), table);
  }

  /** The information findings are taken stretch by stretch, in table order. */
  lemma {:induction false} InfoFindingsAppend(a: seq<ArpEntry>, b: seq<ArpEntry>)
    ensures InfoFindings(a + b) == InfoFindings(a) + InfoFindings(b)
    decreases |b|
  {
    if b == [] {
      assert a + b == a;
    } else {
      var front := b[..|b| - 1];
      assert (a + b)[..|a + b| - 1] == a + front;
      assert (a + b)[|a + b| - 1] == b[|b| - 1];
      InfoFindingsAppend(a, front);
    }
  }

  /** A single row yields one information finding when it is broadcast or
      multicast, and none otherwise. */
  lemma InfoFindingsOfRow(e: ArpEntry)
    ensures IsSpecial(Key(e)) ==> InfoFindings([e]) == [InfoFor(e).value]
    ensures !IsSpecial(Key(e)) ==> InfoFindings([e]) == []
  {
    assert [e][..0] == [];
  }

  /** Repeated special rows are each reported: the same broadcast row twice
      gives two findings. */
  lemma RepeatedSpecialRow(e: ArpEntry)
    requires IsSpecial(Key(e))
    ensures InfoFindings([e, e]) == [InfoFor(e).value, InfoFor(e).value]
  {
    InfoFindingsOfRow(e);
    InfoFindingsAppend([e], [e]);
    assert [e] + [e] == [e, e];
  }

  /** A high finding is reported exactly when the gateway is resolved and two
      or more rows carry its ip; there is at most one, and it lists those
      rows' MACs as they were written. */
  lemma GatewayAlarmIff(table: seq<ArpEntry>, gw: Gateway)
    ensures (exists f :: f in Detect(table, gw) && Level(f) == High)
            <==> GatewayResolved(gw) && |RowsWithIp(table, gw.ip)| >= 2
    ensures forall f :: f in Detect(table, gw) && Level(f) == High ==>
              f == GatewayMultipleMacs(gw.ip, MacsOf(RowsWithIp(table, gw.ip)))
  {
    var m := MultipleIpsFindings(MacOrder(table), table);
    var g := GatewayFindings(table, gw);
    var n := InfoFindings(table);
    MultipleIpsMembers(MacOrder(table), table);
    InfoKinds(table);
    assert Detect(table, gw) == m + g + n;
    forall f | f in Detect(table, gw) && Level(f) == High ensures f in g {
      HighIsGatewayFinding(f);
    }
    GatewayFindingsInDetect(table, gw);
    if GatewayResolved(gw) && |RowsWithIp(table, gw.ip)| >= 2 {
      assert Level(g[0]) == High;
    }
  }

  /** Only the gateway finding is rated high. */
  lemma HighIsGatewayFinding(f: Finding)
    ensures Level(f) == High <==> f.GatewayMultipleMacs?
  {
    assert Medium[0] != High[0] && NoThreat[0] != High[0];
  }

  function Rank(f: Finding): nat {
    match f
    case MultipleIps(_, _) => 0
    case GatewayMultipleMacs(_, _) => 1
    case _ => 2
  }

  /** The medium findings come first, then the high one, then the
      information findings. */
  lemma DetectOrdered(table: seq<ArpEntry>, gw: Gateway)
    ensures var fs := Detect(table, gw);
            forall i, j :: 0 <= i < j < |fs| ==> Rank(fs[i]) <= Rank(fs[j])
  {
    var m := MultipleIpsFindings(MacOrder(table), table);
    var g := GatewayFindings(table, gw);
    var n := InfoFindings(table);
    MultipleIpsMembers(MacOrder(table), table);
    InfoKinds(table);
    assert Detect(table, gw) == m + g + n;
    PartsOrdered(m, g, n);
  }

  /** Three runs of findings of rank 0, 1 and 2, put one after the other,
      are ordered by rank. */
  lemma PartsOrdered(m: seq<Finding>, g: seq<Finding>, n: seq<Finding>)
    requires forall f :: f in m ==> f.MultipleIps?
    requires forall f :: f in g ==> f.GatewayMultipleMacs?
    requires forall f :: f in n ==> f.InfoBroadcast? || f.InfoMulticast?
    ensures var fs := m + g + n;
            forall i, j :: 0 <= i < j < |fs| ==> Rank(fs[i]) <= Rank(fs[j])
  {
    var fs := m + g + n;
    forall i | 0 <= i < |fs|
      ensures Rank(fs[i]) == (if i < |m| then 0 else if i < |m| + |g| then 1 else 2)
    {
      if i < |m| {
        assert fs[i] == m[i] && m[i] in m;
      } else if i < |m| + |g| {
        assert fs[i] == g[i - |m|] && g[i - |m|] in g;
      } else {
        assert fs[i] == n[i - |m| - |g|] && n[i - |m| - |g|] in n;
      }
    }
  }

  lemma DetectEmpty(gw: Gateway)
    ensures Detect([], gw) == []
  {
  }

  /** Two rows with the same counted MAC under different ips raise a
      `multiple_ips` finding for that MAC. */
  lemma TwoRowsSameMac(table: seq<ArpEntry>, i: nat, j: nat, gw: Gateway)
    requires i < j < |table|
    requires Key(table[i]) == Key(table[j]) && !IsSpecial(Key(table[i]))
    ensures MultipleIps(Key(table[i]), IpsOf(table, Key(table[i]))) in Detect(table, gw)
  {
    IpsOfTwo(table, i, j);
    MultipleIpsIff(table, gw);
  }

  lemma {:induction false} IpsOfTwo(table: seq<ArpEntry>, i: nat, j: nat)
    requires i < j < |table| && Key(table[i]) == Key(table[j])
    ensures |IpsOf(table, Key(table[i]))| >= 2
  {
    var n := |table| - 1;
    var prefix := table[..n];
    if j < n {
      assert prefix[i] == table[i] && prefix[j] == table[j];
      IpsOfTwo(prefix, i, j);
    } else {
      assert prefix[i] == table[i];
      IpsOfOne(prefix, i);
    }
  }

  lemma {:induction false} IpsOfOne(table: seq<ArpEntry>, i: nat)
    requires i < |table|
    ensures |IpsOf(table, Key(table[i]))| >= 1
  {
    var n := |table| - 1;
    if i < n {
      assert table[..n][i] == table[i];
      IpsOfOne(table[..n], i);
    }
  }

  /** A broadcast or multicast row whose ip is not the gateway's changes
      none of the threat findings. */
  lemma SpecialRowNoThreat(table: seq<ArpEntry>, e: ArpEntry, gw: Gateway)
    requires IsSpecial(Key(e)) && e.ip != gw.ip
    ensures ThreatFindings(table + [e], gw) == ThreatFindings(table, gw)
  {
    var t := table + [e];
    assert t[..|t| - 1] == table;
    assert MacOrder(t) == MacOrder(table);
    assert RowsWithIp(t, gw.ip) == RowsWithIp(table, gw.ip);
    MacOrderCounted(table);
    forall k | k in MacOrder(table) ensures IpsOf(t, k) == IpsOf(table, k) {
    }
    KeysSameIps(MacOrder(table), table, t);
  }

  lemma {:induction false} KeysSameIps(keys: seq<string>, a: seq<ArpEntry>, b: seq<ArpEntry>)
    requires forall k :: k in keys ==> IpsOf(a, k) == IpsOf(b, k)
    ensures MultipleIpsFindings(keys, a) == MultipleIpsFindings(keys, b)
  {
    if keys != [] {
      KeysSameIps(keys[..|keys| - 1], a, b);
    }
  }

  /** Two rows that carry the gateway's ip raise the high finding, listing
      their two MACs. */
  lemma GatewayPairIsHigh(a: ArpEntry, b: ArpEntry, gw: Gateway)
    requires GatewayResolved(gw) && a.ip == gw.ip && b.ip == gw.ip
    ensures GatewayMultipleMacs(gw.ip, [a.mac, b.mac]) in Detect([a, b], gw)
  {
    var t := [a, b];
    assert t[..1] == [a];
    assert [a][..0] == [];
    assert RowsWithIp(t, gw.ip) == [a, b];
    assert MacsOf([a, b]) == [a.mac, b.mac];
    GatewayFindingsInDetect(t, gw);
  }

  /** The rows at an ip are taken stretch by stretch, in table order. */
  lemma {:induction false} RowsWithIpAppend(a: seq<ArpEntry>, b: seq<ArpEntry>, ip: string)
    ensures RowsWithIp(a + b, ip) == RowsWithIp(a, ip) + RowsWithIp(b, ip)
    decreases |b|
  {
    if b == [] {
      assert a + b == a;
    } else {
      var front := b[..|b| - 1];
      assert (a + b)[..|a + b| - 1] == a + front;
      assert (a + b)[|a + b| - 1] == b[|b| - 1];
      RowsWithIpAppend(a, front, ip);
    }
  }

  /** A single row is kept exactly when it holds the ip. */
  lemma RowsWithIpOfRow(e: ArpEntry, ip: string)
    ensures RowsWithIp([e], ip) == if e.ip == ip then [e] else []
  {
    assert [e][..0] == [];
  }

  /** Two different rows at one ip are both kept. */
  lemma {:induction false} TwoRowsAtIp(table: seq<ArpEntry>, ip: string, i: nat, j: nat)
    requires i < j < |table| && table[i].ip == ip && table[j].ip == ip
    ensures |RowsWithIp(table, ip)| >= 2
    decreases |table|
  {
    var front := table[..|table| - 1];
    if j == |table| - 1 {
      assert table[i] == front[i];
      assert table[i] in RowsWithIp(front, ip);
    } else {
      assert table[i] == front[i] && table[j] == front[j];
      TwoRowsAtIp(front, ip, i, j);
    }
  }

  /** Any two rows of any table that carry the resolved gateway's ip raise
      the high finding, and it lists both their MACs. */
  lemma GatewayRowsRaiseAlarm(table: seq<ArpEntry>, gw: Gateway, i: nat, j: nat)
    requires GatewayResolved(gw) && i < j < |table| && table[i].ip == gw.ip && table[j].ip == gw.ip
    ensures GatewayMultipleMacs(gw.ip, MacsOf(RowsWithIp(table, gw.ip))) in Detect(table, gw)
    ensures table[i].mac in MacsOf(RowsWithIp(table, gw.ip)) && table[j].mac in MacsOf(RowsWithIp(table, gw.ip))
  {
    TwoRowsAtIp(table, gw.ip, i, j);
    GatewayFindingsInDetect(table, gw);
    var r := RowsWithIp(table, gw.ip);
    assert table[i] in table && table[j] in table;
    MacOfMember(r, table[i]);
    MacOfMember(r, table[j]);
  }

  lemma MacOfMember(rows: seq<ArpEntry>, e: ArpEntry)
    requires e in rows
    ensures e.mac in MacsOf(rows)
  {
    var k :| 0 <= k < |rows| && rows[k] == e;
    assert MacsOf(rows)[k] == e.mac;
  }

  lemma GatewayFindingsInDetect(table: seq<ArpEntry>, gw: Gateway)
    ensures forall f :: f in GatewayFindings(table, gw) ==> f in Detect(table, gw)
  {
    var m := MultipleIpsFindings(MacOrder(table), table);
    assert Detect(table, gw) == m + GatewayFindings(table, gw) + InfoFindings(table);
  }

  /** The gateway check does not skip broadcast rows: a broadcast row that
      carries the gateway's ip, next to the gateway's own row, raises the high
      finding. */
  lemma BroadcastRowAtGatewayIsHigh(gwRow: ArpEntry, gw: Gateway)
    requires GatewayResolved(gw) && gwRow.ip == gw.ip
    ensures GatewayMultipleMacs(gw.ip, [gwRow.mac, BroadcastMac])
            in Detect([gwRow, ArpEntry(gw.ip, BroadcastMac, "eth0")], gw)
  {
    GatewayPairIsHigh(gwRow, ArpEntry(gw.ip, BroadcastMac, "eth0"), gw);
  }

  /** Two identical rows for the gateway's ip raise the "more than one MAC"
      finding although the MAC is the same. */
  lemma DuplicateGatewayRowIsHigh(row: ArpEntry, gw: Gateway)
    requires GatewayResolved(gw) && row.ip == gw.ip
    ensures GatewayMultipleMacs(gw.ip, [row.mac, row.mac]) in Detect([row, row], gw)
  {
    GatewayPairIsHigh(row, row, gw);
  }

  /** The multicast test is the eight prefixes `0x:` with an odd hex digit x:
      only first octets below 0x10. */
  lemma MulticastShape(mac: string)
    ensures IsMulticast(mac) <==>
              |mac| >= 3 && mac[0] == '0' && mac[2] == ':'
              && mac[1] in ['1', '3', '5', '7', '9', 'b', 'd', 'f']
  {
    if IsMulticast(mac) {
      var i :| 0 <= i < |MulticastPrefixes| && StartsWith(mac, MulticastPrefixes[i]);
      assert mac[..3] == MulticastPrefixes[i];
      assert mac[0] == MulticastPrefixes[i][0] && mac[1] == MulticastPrefixes[i][1] && mac[2] == MulticastPrefixes[i][2];
    }
    if |mac| >= 3 && mac[0] == '0' && mac[2] == ':' && mac[1] in ['1', '3', '5', '7', '9', 'b', 'd', 'f'] {
      var i := if mac[1] == '1' then 0 else if mac[1] == '3' then 1 else if mac[1] == '5' then 2
               else if mac[1] == '7' then 3 else if mac[1] == '9' then 4 else if mac[1] == 'b' then 5
               else if mac[1] == 'd' then 6 else 7;
      assert mac[..3] == MulticastPrefixes[i];
    }
  }

  /** The IPv6 multicast MACs `33:33:...` have the group bit (the low bit of
      the first octet) set, yet are counted as ordinary MACs. */
  lemma GroupBitMacNotMulticast(rest: string)
    ensures AddressFormat.HexPairValue("33") % 2 == 1
    ensures !IsSpecial("33:33" + rest)
  {
    MulticastShape("33:33" + rest);
  }
}

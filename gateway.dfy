/**
 * `get_default_gateway`: finds the default gateway's ip from the routing
 * output (`ipconfig` on Windows, `ip route show default` elsewhere) and its
 * MAC from a per-ip neighbour lookup (`arp -a <ip>`, `ip neigh show <ip>`).
 * The commands are not run: what each printed is a parameter, `None` when it
 * raised.
 */
module GatewayResolver {
  import opened Wrappers
  import opened PyText

  /** The sentinel the source writes for an unresolved field. */
  const Unknown: string := "Bilinmiyor"

  datatype Gateway = Gateway(ip: string, mac: string)

  const UnresolvedGateway: Gateway := Gateway(Unknown, Unknown)

  /** Returned only when `ipconfig` itself raised. */
  const FallbackGateway: Gateway := Gateway("192.168.1.1", "aa:bb:cc:dd:ee:ff")

  /** The outputs of the two lookups of one platform. */
  datatype GatewayProbe =
    | WindowsProbe(ipconfig: Option<string>, arpLookup: Option<string>)
    | LinuxProbe(route: Option<string>, neighbour: Option<string>)

  const TurkishLabel: string := "Varsayılan Ağ Geçidi"
  const EnglishLabel: string := "Default Gateway"

  predicate IsLabelLine(line: string) {
    Contains(line, TurkishLabel) || Contains(line, EnglishLabel)
  }

  /** A label line that `split(":")` cuts into more than one piece: the line
      the Windows search stops at. */
  predicate IsGatewayLine(line: string) {
    IsLabelLine(line) && |Split(line, ":")| > 1
  }

  function GatewayLineValue(line: string): string
    requires IsGatewayLine(line)
  {
    Strip(Split(line, ":")[1])
  }

  /** The value of the first label line that holds a colon; label lines
      without a colon are passed over. */
  function LabelValue(lines: seq<string>): Option<string> {
    if lines == [] then None
    else if IsGatewayLine(lines[0]) then Some(GatewayLineValue(lines[0]))
    else LabelValue(lines[1..])
  }

  /** The MAC column (second field, hyphens made colons) of the first line that
      contains the gateway ip as a substring and has two fields or more. */
  function MacColumn(lines: seq<string>, ip: string): Option<string> {
    if lines == [] then None
    else if Contains(lines[0], ip) && |Fields(lines[0])| >= 2
    then Some(ReplaceChar(Fields(lines[0])[1], '-', ':'))
    else MacColumn(lines[1..], ip)
  }

  function WindowsGateway(ipconfig: Option<string>, arpLookup: Option<string>): Gateway {
    match ipconfig
    case None => FallbackGateway
    case Some(text) =>
      match LabelValue(Lines(text))
      case None => UnresolvedGateway
      case Some(ip) =>
        if ip == [] then UnresolvedGateway
        else
          match arpLookup
          case None => Gateway(ip, Unknown)
          case Some(out) =>
            match MacColumn(Lines(out), ip)
            case Some(mac) => Gateway(ip, mac)
            case None => Gateway(ip, Unknown)
  }

  /** `text.split(marker)[1].split(' ')[0]`, or `None` where indexing piece 1
      raises. */
  function WordAfter(text: string, marker: string): Option<string>
    requires marker != []
  {
    var parts := Split(text, marker);
    if |parts| < 2 then None else Some(Split(parts[1], " ")[0])
  }

  const RouteMarker: string := "default via "
  const NeighbourMarker: string := "lladdr "

  /** On Linux every failure, of either command or of either split, gives the
      unresolved pair. */
  function LinuxGateway(route: Option<string>, neighbour: Option<string>): Gateway {
    if route.None? then UnresolvedGateway
    else
      match WordAfter(route.value, RouteMarker)
      case None => UnresolvedGateway
      case Some(ip) =>
        if neighbour.None? then UnresolvedGateway
        else
          match WordAfter(neighbour.value, NeighbourMarker)
          case None => UnresolvedGateway
          case Some(mac) => Gateway(ip, mac)
  }

  /** `get_default_gateway` as a value. */
  function GatewayOf(probe: GatewayProbe): Gateway {
    match probe
    case WindowsProbe(ipconfig, arpLookup) => WindowsGateway(ipconfig, arpLookup)
    case LinuxProbe(route, neighbour) => LinuxGateway(route, neighbour)
  }

  /** The loop over the `ipconfig` lines, stopping at the first label line
      with a colon. */
  method FindGatewayIp(lines: seq<string>) returns (ip: Option<string>)
    ensures ip == LabelValue(lines)
  {
    ip := None;
    var i := 0;
    while i < |lines|
      invariant 0 <= i <= |lines|
      invariant LabelValue(lines) == LabelValue(lines[i..])
    {
      var line := lines[i];
      if IsLabelLine(line) {
        var parts := Split(line, ":");
        if |parts| > 1 {
          ip := Some(Strip(parts[1]));
          return;
        }
      }
      assert lines[i..][1..] == lines[i + 1..];
      i := i + 1;
    }
  }

  /** The loop over the `arp -a <ip>` lines. */
  method FindGatewayMac(lines: seq<string>, ip: string) returns (mac: Option<string>)
    ensures mac == MacColumn(lines, ip)
  {
    var i := 0;
    while i < |lines|
      invariant 0 <= i <= |lines|
      invariant MacColumn(lines, ip) == MacColumn(lines[i..], ip)
    {
      var line := lines[i];
      if Contains(line, ip) {
        var parts := Fields(line);
        if |parts| >= 2 {
          mac := Some(ReplaceChar(parts[1], '-', ':'));
          return;
        }
      }
      assert lines[i..][1..] == lines[i + 1..];
      i := i + 1;
    }
    mac := None;
  }

  method GetDefaultGateway(probe: GatewayProbe) returns (g: Gateway)
    ensures g == GatewayOf(probe)
    ensures probe.WindowsProbe? && probe.ipconfig.None? ==> g == FallbackGateway
    ensures probe.LinuxProbe? && (probe.route.None? || probe.neighbour.None?) ==> g == UnresolvedGateway
  {
    match probe {
      case WindowsProbe(ipconfig, arpLookup) =>
        if ipconfig.None? {
          return FallbackGateway;
        }
        var ip := FindGatewayIp(Lines(ipconfig.value));
        if ip.None? || ip.value == [] {
          return UnresolvedGateway;
        }
        if arpLookup.None? {
          return Gateway(ip.value, Unknown);
        }
        var mac := FindGatewayMac(Lines(arpLookup.value), ip.value);
        g := if mac.Some? then Gateway(ip.value, mac.value) else Gateway(ip.value, Unknown);
      case LinuxProbe(route, neighbour) =>
        g := LinuxGateway(route, neighbour);
    }
  }

  // ------------------------------------------------------------ properties

  lemma {:induction false} LabelValueSkips(pre: seq<string>, rest: seq<string>)
    requires forall k :: 0 <= k < |pre| ==> !IsGatewayLine(pre[k])
    ensures LabelValue(pre + rest) == LabelValue(rest)
  {
    if pre != [] {
      assert (pre + rest)[0] == pre[0];
      assert (pre + rest)[1..] == pre[1..] + rest;
      LabelValueSkips(pre[1..], rest);
    } else {
      assert pre + rest == rest;
    }
  }

  /** Only the first label line with a colon is read: whatever follows it,
      later adapters' gateways included, does not matter. */
  lemma LabelValueFirst(pre: seq<string>, line: string, post: seq<string>)
    requires forall k :: 0 <= k < |pre| ==> !IsGatewayLine(pre[k])
    requires IsGatewayLine(line)
    ensures LabelValue(pre + [line] + post) == Some(GatewayLineValue(line))
  {
    assert pre + [line] + post == pre + ([line] + post);
    LabelValueSkips(pre, [line] + post);
  }

  /** An adapter listed first with an empty "Default Gateway" value makes the
      whole lookup unresolved, even when a later adapter has a gateway. */
  lemma WindowsBlankFirstGateway(pre: seq<string>, line: string, post: seq<string>, arpLookup: Option<string>)
    requires forall k :: 0 <= k < |pre| ==> !IsGatewayLine(pre[k])
    requires IsGatewayLine(line) && GatewayLineValue(line) == []
    requires forall l :: l in pre + [line] + post ==> '\n' !in l
    ensures WindowsGateway(Some(Join(pre + [line] + post, "\n")), arpLookup) == UnresolvedGateway
  {
    var lines := pre + [line] + post;
    SplitJoin(lines, '\n');
    LabelValueFirst(pre, line, post);
  }

  lemma {:induction false} MacColumnShape(lines: seq<string>, ip: string)
    ensures MacColumn(lines, ip).Some? ==>
              IsField(MacColumn(lines, ip).value) && '-' !in MacColumn(lines, ip).value
  {
    if lines != [] {
      if Contains(lines[0], ip) && |Fields(lines[0])| >= 2 {
        var f := Fields(lines[0])[1];
        FieldsAreTokens(lines[0]);
        assert f in Fields(lines[0]);
        var m := ReplaceChar(f, '-', ':');
        assert forall i :: 0 <= i < |m| ==> !IsSpace(m[i]);
      } else {
        MacColumnShape(lines[1..], ip);
      }
    }
  }

  /** Once `ipconfig` names a gateway ip, that ip is kept, and its MAC is
      either a hyphen-free field of the `arp -a` output or the sentinel. */
  lemma WindowsResolvedShape(text: string, arpLookup: Option<string>)
    requires LabelValue(Lines(text)).Some? && LabelValue(Lines(text)).value != []
    ensures WindowsGateway(Some(text), arpLookup).ip == LabelValue(Lines(text)).value
    ensures var mac := WindowsGateway(Some(text), arpLookup).mac;
            mac == Unknown || (IsField(mac) && '-' !in mac)
  {
    if arpLookup.Some? {
      MacColumnShape(Lines(arpLookup.value), LabelValue(Lines(text)).value);
    }
  }

  lemma ContainsAtOffset(s: string, sub: string, k: nat)
    requires OccursAt(s, sub, k)
    ensures Contains(s, sub)
  {
  }

  /** `Contains` is monotone: a string holding `a`, which holds `b`, holds `b`. */
  lemma ContainsTransitive(s: string, a: string, b: string, k: nat)
    requires OccursAt(s, a, k) && Contains(a, b)
    ensures Contains(s, b)
  {
    var j := IndexOf(a, b).value;
    assert OccursAt(a, b, j);
    forall t | 0 <= t < |b| ensures s[k + j + t] == b[t] {
      assert a[j + t] == b[t];
      assert s[k..k + |a|][j + t] == s[k + j + t];
    }
    assert s[k + j..k + j + |b|] == b;
    ContainsAtOffset(s, b, k + j);
  }

  /** The substring test also matches the `Interface: <host ip> --- 0x<n>`
      line when the gateway ip is a prefix of the host's own ip (gateway
      192.168.1.1, host 192.168.1.15): that line comes first, so the host's
      ip is returned as the gateway's MAC. */
  lemma WindowsMacFromInterfaceLine(gatewayIp: string, hostIp: string, index: string, rest: seq<string>)
    requires IsField(hostIp) && IsField(index) && '-' !in hostIp
    requires StartsWith(hostIp, gatewayIp)
    ensures MacColumn([Join(["Interface:", hostIp, "---", index], " ")] + rest, gatewayIp) == Some(hostIp)
  {
    var tokens := ["Interface:", hostIp, "---", index];
    var line := Join(tokens, " ");
    assert IsField("Interface:") && IsField("---");
    FieldsOfJoin(tokens);
    assert line == "Interface: " + hostIp + " " + Join(tokens[2..], " ");
    assert OccursAt(line, hostIp, 11);
    assert Contains(hostIp, gatewayIp) by {
      assert OccursAt(hostIp, gatewayIp, 0);
    }
    ContainsTransitive(line, hostIp, gatewayIp, 11);
    assert ReplaceChar(hostIp, '-', ':') == hostIp;
  }

  lemma SplitSecondPiece(text: string, marker: string)
    requires marker != []
    ensures |Split(text, marker)| >= 2 <==> Contains(text, marker)
  {
  }

  /** On Linux the result is the unresolved pair exactly when a command failed
      or its output lacks the marker; otherwise it is the first words after
      `default via ` and `lladdr `. */
  lemma LinuxOutcomes(route: Option<string>, neighbour: Option<string>)
    ensures (route.None? || !Contains(route.value, RouteMarker)
             || neighbour.None? || !Contains(neighbour.value, NeighbourMarker))
            ==> LinuxGateway(route, neighbour) == UnresolvedGateway
    ensures (route.Some? && Contains(route.value, RouteMarker)
             && neighbour.Some? && Contains(neighbour.value, NeighbourMarker))
            ==> LinuxGateway(route, neighbour)
                == Gateway(WordAfter(route.value, RouteMarker).value,
                           WordAfter(neighbour.value, NeighbourMarker).value)
  {
    if route.Some? {
      SplitSecondPiece(route.value, RouteMarker);
    }
    if neighbour.Some? {
      SplitSecondPiece(neighbour.value, NeighbourMarker);
    }
  }

  /** Piece 1 of a split at the first occurrence, when no other follows. */
  lemma SplitSecondPiece1(s: string, marker: string, k: nat)
    requires marker != []
    requires IndexOf(s, marker) == Some(k)
    requires !Contains(s[k + |marker|..], marker)
    ensures |Split(s, marker)| == 2 && Split(s, marker)[1] == s[k + |marker|..]
  {
  }

  /** The first piece of a split at `" "` is the leading run without spaces. */
  lemma FirstWord(word: string, rest: string)
    requires ' ' !in word
    ensures Split(word + " " + rest, " ")[0] == word
  {
    var tail := word + " " + rest;
    assert OccursAt(tail, " ", |word|) by {
      assert tail[|word|..|word| + 1] == " ";
    }
    forall j | 0 <= j < |word| ensures !OccursAt(tail, " ", j) {
      assert tail[j] == word[j];
      assert tail[j..j + 1] == [tail[j]];
    }
    FirstOccurrence(tail, " ", |word|);
    assert tail[..|word|] == word;
  }

  /** The word that follows the first occurrence of the marker, at `k`, when
      the text after it holds the marker no more. */
  lemma WordAfterAt(s: string, marker: string, k: nat, word: string, rest: string)
    requires marker != [] && ' ' !in word
    requires IndexOf(s, marker) == Some(k)
    requires s[k + |marker|..] == word + " " + rest
    requires !Contains(word + " " + rest, marker)
    ensures WordAfter(s, marker) == Some(word)
  {
    SplitSecondPiece1(s, marker, k);
    FirstWord(word, rest);
  }

  /** `ip route show default` printing `default via <ip> dev ...` gives `<ip>`. */
  lemma LinuxRouteWord(ip: string, rest: string)
    requires ' ' !in ip && !Contains(ip + " " + rest, RouteMarker)
    ensures WordAfter(RouteMarker + ip + " " + rest, RouteMarker) == Some(ip)
  {
    var s := RouteMarker + ip + " " + rest;
    assert OccursAt(s, RouteMarker, 0) by {
      assert s[..|RouteMarker|] == RouteMarker;
    }
    FirstOccurrence(s, RouteMarker, 0);
    assert s[|RouteMarker|..] == ip + " " + rest;
    WordAfterAt(s, RouteMarker, 0, ip, rest);
  }

  /** `ip neigh show <ip>` printing `<ip> dev eth0 lladdr <mac> REACHABLE`
      gives `<mac>`, when the text before the marker ends in a space and does
      not itself hold the marker. */
  /** A marker whose only space is its last character does not start inside
      a space-ended text that lacks it. */
  lemma NoMarkerBefore(pre: string, post: string, m: string, j: nat)
    requires m != [] && forall d :: 0 <= d < |m| - 1 ==> m[d] != ' '
    requires pre == [] || pre[|pre| - 1] == ' '
    requires !Contains(pre, m)
    requires j < |pre|
    ensures !OccursAt(pre + post, m, j)
  {
    var s := pre + post;
    if j + |m| <= |pre| {
      assert s[j..j + |m|] == pre[j..j + |m|];
      assert !OccursAt(pre, m, j);
    } else if j + |m| <= |s| {
      var d := |pre| - 1 - j;
      assert s[|pre| - 1] == ' ';
      assert s[j..j + |m|][d] == ' ';
    }
  }

  /** The word after the first occurrence of such a marker, when the text
      before it ends in a space. */
  lemma WordAfterMarker(pre: string, m: string, mac: string, rest: string)
    requires m != [] && forall d :: 0 <= d < |m| - 1 ==> m[d] != ' '
    requires pre == [] || pre[|pre| - 1] == ' '
    requires !Contains(pre, m)
    requires ' ' !in mac && !Contains(mac + " " + rest, m)
    ensures WordAfter(pre + m + mac + " " + rest, m) == Some(mac)
  {
    var t := mac + " " + rest;
    var s := pre + m + mac + " " + rest;
    ThreePieces(pre, m, mac, rest);
    forall j | 0 <= j < |pre| ensures !OccursAt(s, m, j) {
      NoMarkerBefore(pre, m + t, m, j);
    }
    FirstOccurrence(s, m, |pre|);
    WordAfterAt(s, m, |pre|, mac, rest);
  }

  /** Where the marker and what follows it sit in the joined line. */
  lemma ThreePieces(pre: string, m: string, mac: string, rest: string)
    ensures var s := pre + m + mac + " " + rest;
            s == pre + (m + (mac + " " + rest))
            && OccursAt(s, m, |pre|)
            && s[|pre| + |m|..] == mac + " " + rest
  {
    var t := mac + " " + rest;
    var s := pre + m + mac + " " + rest;
    assert s == pre + m + t;
    assert s == pre + (m + t);
    assert s[|pre|..|pre| + |m|] == m;
  }


  lemma LinuxNeighbourWord(pre: string, mac: string, rest: string)
    requires pre == [] || pre[|pre| - 1] == ' '
    requires !Contains(pre, NeighbourMarker)
    requires ' ' !in mac && !Contains(mac + " " + rest, NeighbourMarker)
    ensures WordAfter(pre + NeighbourMarker + mac + " " + rest, NeighbourMarker) == Some(mac)
  {
    WordAfterMarker(pre, NeighbourMarker, mac, rest);
  }

}

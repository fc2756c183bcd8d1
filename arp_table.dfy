/**
 * `get_arp_table`: turns the text printed by the platform's ARP listing
 * command (`arp -a` on Windows, `arp -n` elsewhere) into `ArpEntry` records,
 * and falls back to a fixed ten-entry table when the command fails.
 * The command itself is not run: its output is a parameter, `None` when the
 * command raised.
 */
module ArpTable {
  import opened Wrappers
  import opened PyText

  /** One row of the ARP cache: `{"ip", "mac", "interface"}`. */
  datatype ArpEntry = ArpEntry(ip: string, mac: string, iface: string)

  /** `os.name == 'nt'` selects the Windows parser, anything else the POSIX one. */
  datatype Platform = Windows | Posix

  // ---------------------------------------------------------------- POSIX

  /** One line of `arp -n`: blank lines and lines of fewer than three fields are
      skipped; the ip is field 0, the MAC field 2, the interface the last field
      when there are more than three, and `(incomplete)` rows are dropped. */
  function PosixRow(line: string): Option<ArpEntry> {
    if Strip(line) == [] then None
    else
      var parts := Fields(line);
      if |parts| >= 3 then
        var iface := if |parts| > 3 then parts[|parts| - 1] else "unknown";
        if parts[2] != "(incomplete)" then Some(ArpEntry(parts[0], parts[2], iface)) else None
      else None
  }

  /** The rows kept from `lines`, in order. */
  function PosixRows(lines: seq<string>): seq<ArpEntry> {
    if lines == [] then []
    else
      var kept := PosixRows(lines[..|lines| - 1]);
      match PosixRow(lines[|lines| - 1])
      case Some(e) => kept + [e]
      case None => kept
  }

  /** The whole POSIX table: every line but the first (the header). */
  function PosixTable(output: string): seq<ArpEntry> {
    PosixRows(Lines(output)[1..])
  }

  method ParsePosixTable(output: string) returns (entries: seq<ArpEntry>)
    ensures entries == PosixTable(output)
  {
    var body := Lines(output)[1..];
    entries := [];
    var i := 0;
    while i < |body|
      invariant 0 <= i <= |body|
      invariant entries == PosixRows(body[..i])
    {
      match PosixRow(body[i]) {
        case Some(e) => entries := entries + [e];
        case None =>
      }
      assert body[..i + 1][..i] == body[..i];
      i := i + 1;
    }
    assert body[..i] == body;
  }

  predicate WellFormedPosixEntry(e: ArpEntry) {
    IsField(e.ip) && IsField(e.mac) && e.mac != "(incomplete)"
    && (e.iface == "unknown" || IsField(e.iface))
  }

  lemma PosixRowWellFormed(line: string)
    ensures PosixRow(line).Some? ==> WellFormedPosixEntry(PosixRow(line).value)
  {
    var parts := Fields(line);
    FieldsAreTokens(line);
    if |parts| >= 3 {
      assert parts[0] in parts && parts[2] in parts && parts[|parts| - 1] in parts;
    }
  }

  /** Every parsed POSIX entry has whitespace-free ip and MAC fields, is never
      an `(incomplete)` row, and its interface is a field or `unknown`; the
      table has at most one entry per line after the header. */
  lemma {:induction false} PosixRowsWellFormed(lines: seq<string>)
    ensures forall e :: e in PosixRows(lines) ==> WellFormedPosixEntry(e)
    ensures |PosixRows(lines)| <= |lines|
  {
    if lines != [] {
      PosixRowsWellFormed(lines[..|lines| - 1]);
      PosixRowWellFormed(lines[|lines| - 1]);
    }
  }

  /** Lines are parsed one at a time: the rows of two stretches of output are
      the rows of each, in order. */
  lemma {:induction false} PosixRowsAppend(a: seq<string>, b: seq<string>)
    ensures PosixRows(a + b) == PosixRows(a) + PosixRows(b)
    decreases |b|
  {
    if b == [] {
      assert a + b == a;
    } else {
      var b' := b[..|b| - 1];
      assert (a + b)[..|a + b| - 1] == a + b';
      PosixRowsAppend(a, b');
    }
  }

  /** The first line of the POSIX output is never read: any header without a
      line break in it gives the same table. */
  lemma PosixHeaderIgnored(header1: string, header2: string, body: string)
    requires '\n' !in header1 && '\n' !in header2
    ensures PosixTable(header1 + "\n" + body) == PosixTable(header2 + "\n" + body)
  {
    SplitAfterLine(header1, body);
    SplitAfterLine(header2, body);
  }

  lemma SplitAfterLine(head: string, body: string)
    requires '\n' !in head
    ensures Lines(head + "\n" + body) == [head] + Lines(body)
  {
    var s := head + "\n" + body;
    assert IndexOf(s, "\n") == Some(|head|) by {
      assert OccursAt(s, "\n", |head|);
      forall j | 0 <= j < |head| ensures !OccursAt(s, "\n", j) {
        assert s[j] == head[j];
      }
      FirstOccurrence(s, "\n", |head|);
    }
    assert s[..|head|] == head;
    assert s[|head| + 1..] == body;
  }

  /** A data line `ip hwtype mac flags iface` of `arp -n` gives the entry
      (ip, mac, iface). */
  lemma PosixDataLine(ip: string, hwtype: string, mac: string, flags: string, iface: string)
    requires IsField(ip) && IsField(hwtype) && IsField(mac) && IsField(flags) && IsField(iface)
    requires mac != "(incomplete)"
    ensures PosixRow(Join([ip, hwtype, mac, flags, iface], " ")) == Some(ArpEntry(ip, mac, iface))
  {
    var line := Join([ip, hwtype, mac, flags, iface], " ");
    FieldsOfJoin([ip, hwtype, mac, flags, iface]);
    assert line[0] == ip[0];
    StripOfTokenStart(line);
  }

  /** A three-field line has no interface column: the interface is `unknown`. */
  lemma PosixThreeFields(ip: string, hwtype: string, mac: string)
    requires IsField(ip) && IsField(hwtype) && IsField(mac)
    requires mac != "(incomplete)"
    ensures PosixRow(Join([ip, hwtype, mac], " ")) == Some(ArpEntry(ip, mac, "unknown"))
  {
    var line := Join([ip, hwtype, mac], " ");
    FieldsOfJoin([ip, hwtype, mac]);
    assert line[0] == ip[0];
    StripOfTokenStart(line);
  }

  /** An `(incomplete)` row is dropped. */
  lemma PosixIncompleteDropped(ip: string, hwtype: string, iface: string)
    requires IsField(ip) && IsField(hwtype) && IsField(iface)
    ensures PosixRow(Join([ip, hwtype, "(incomplete)", iface], " ")) == None
  {
    assert IsField("(incomplete)");
    FieldsOfJoin([ip, hwtype, "(incomplete)", iface]);
    var line := Join([ip, hwtype, "(incomplete)", iface], " ");
    assert Fields(line)[2] == "(incomplete)";
  }

  lemma StripOfTokenStart(s: string)
    requires s != [] && !IsSpace(s[0])
    ensures Strip(s) != []
  {
    StripRightKeepsStart(s);
  }

  // -------------------------------------------------------------- Windows

  predicate AllDigits(s: string) { forall i :: 0 <= i < |s| ==> IsDigit(s[i]) }

  /** Text matched by `\d+\.\d+\.\d+\.\d+`. */
  predicate IsDottedQuad(s: string) {
    var parts := Split(s, ".");
    |parts| == 4 && forall i :: 0 <= i < 4 ==> parts[i] != [] && AllDigits(parts[i])
  }

  /** The leftmost position from `k` on at which the rest of `tok` is a dotted
      quad: where `re.search` starts its match inside a token. */
  function QuadStart(tok: string, k: nat): (r: Option<nat>)
    requires k <= |tok|
    ensures r.Some? ==> k <= r.value <= |tok|
    decreases |tok| - k
  {
    if IsDottedQuad(tok[k..]) then Some(k)
    else if k == |tok| then None
    else QuadStart(tok, k + 1)
  }

  /** The start found is a dotted quad and no earlier position is. */
  lemma {:induction false} QuadStartLeftmost(tok: string, k: nat)
    requires k <= |tok| && QuadStart(tok, k).Some?
    ensures IsDottedQuad(tok[QuadStart(tok, k).value..])
    ensures forall j :: k <= j < QuadStart(tok, k).value ==> !IsDottedQuad(tok[j..])
    decreases |tok| - k
  {
    if !IsDottedQuad(tok[k..]) {
      QuadStartLeftmost(tok, k + 1);
    }
  }

  /** When no start is found, no position from `k` on starts a dotted quad. */
  lemma {:induction false} QuadStartAbsent(tok: string, k: nat)
    requires k <= |tok| && QuadStart(tok, k).None?
    ensures forall j :: k <= j <= |tok| ==> !IsDottedQuad(tok[j..])
    decreases |tok| - k
  {
    assert !IsDottedQuad(tok[k..]);
    if k < |tok| {
      QuadStartAbsent(tok, k + 1);
    }
  }

  /** A token without a dot holds no dotted quad. */
  lemma {:induction false} NoDotNoQuad(tok: string, k: nat)
    requires k <= |tok| && '.' !in tok
    ensures QuadStart(tok, k).None?
    decreases |tok| - k
  {
    NoCharNoIndex(tok[k..], '.');
    if k < |tok| {
      NoDotNoQuad(tok, k + 1);
    }
  }

  /** Text matched by `[0-9a-f-]+`. */
  predicate IsMacToken(t: string) {
    t != [] && forall i :: 0 <= i < |t| ==> (IsDigit(t[i]) || 'a' <= t[i] <= 'f' || t[i] == '-')
  }

  function WordRunLength(t: string): (n: nat)
    ensures n <= |t|
    ensures forall i :: 0 <= i < n ==> IsWordChar(t[i])
    ensures n == |t| || !IsWordChar(t[n])
  {
    if t == [] || !IsWordChar(t[0]) then 0 else 1 + WordRunLength(t[1..])
  }

  /** The match of `(\d+\.\d+\.\d+\.\d+)\s+([0-9a-f-]+)\s+(\w+)` that starts in
      token `i`, with the MAC's hyphens turned into colons. */
  function MatchAt(tokens: seq<string>, i: nat): Option<ArpEntry>
    requires i < |tokens|
  {
    if i + 2 < |tokens| && QuadStart(tokens[i], 0).Some?
       && IsMacToken(tokens[i + 1]) && WordRunLength(tokens[i + 2]) > 0
    then
      var tok := tokens[i];
      var ip := tok[QuadStart(tok, 0).value..];
      var iface := tokens[i + 2][..WordRunLength(tokens[i + 2])];
      Some(ArpEntry(ip, ReplaceChar(tokens[i + 1], '-', ':'), iface))
    else None
  }

  function FirstMatch(tokens: seq<string>, i: nat): (r: Option<ArpEntry>)
    requires i <= |tokens|
    decreases |tokens| - i
  {
    if i == |tokens| then None
    else if MatchAt(tokens, i).Some? then MatchAt(tokens, i)
    else FirstMatch(tokens, i + 1)
  }

  /** One line of `arp -a`: the leftmost match of the pattern, if any. */
  function WindowsRow(line: string): Option<ArpEntry> {
    FirstMatch(Fields(line), 0)
  }

  function WindowsRows(lines: seq<string>): seq<ArpEntry> {
    if lines == [] then []
    else
      var kept := WindowsRows(lines[..|lines| - 1]);
      match WindowsRow(lines[|lines| - 1])
      case Some(e) => kept + [e]
      case None => kept
  }

  /** The whole Windows table: every line, header lines included. */
  function WindowsTable(output: string): seq<ArpEntry> {
    WindowsRows(Lines(output))
  }

  method ParseWindowsTable(output: string) returns (entries: seq<ArpEntry>)
    ensures entries == WindowsTable(output)
  {
    var lines := Lines(output);
    entries := [];
    var i := 0;
    while i < |lines|
      invariant 0 <= i <= |lines|
      invariant entries == WindowsRows(lines[..i])
    {
      match WindowsRow(lines[i]) {
        case Some(e) => entries := entries + [e];
        case None =>
      }
      assert lines[..i + 1][..i] == lines[..i];
      i := i + 1;
    }
    assert lines[..i] == lines;
  }

  lemma MatchAtNoHyphen(tokens: seq<string>, i: nat)
    requires i < |tokens| && MatchAt(tokens, i).Some?
    ensures '-' !in MatchAt(tokens, i).value.mac
  {
    var mac := MatchAt(tokens, i).value.mac;
    assert mac == ReplaceChar(tokens[i + 1], '-', ':');
    forall k | 0 <= k < |mac| ensures mac[k] != '-' {
    }
  }

  lemma {:induction false} FirstMatchNoHyphen(tokens: seq<string>, i: nat)
    requires i <= |tokens|
    ensures FirstMatch(tokens, i).Some? ==> '-' !in FirstMatch(tokens, i).value.mac
    decreases |tokens| - i
  {
    if i == |tokens| {
    } else if MatchAt(tokens, i).Some? {
      MatchAtNoHyphen(tokens, i);
    } else {
      FirstMatchNoHyphen(tokens, i + 1);
    }
  }

  /** No MAC read from Windows output keeps a hyphen: they all became colons. */
  lemma {:induction false} WindowsMacsHaveNoHyphen(lines: seq<string>)
    ensures forall e :: e in WindowsRows(lines) ==> '-' !in e.mac
  {
    if lines != [] {
      WindowsMacsHaveNoHyphen(lines[..|lines| - 1]);
      FirstMatchNoHyphen(Fields(lines[|lines| - 1]), 0);
    }
  }

  lemma MacTokenIsField(mac: string)
    requires IsMacToken(mac)
    ensures IsField(mac)
  {
    forall i | 0 <= i < |mac| ensures !IsSpace(mac[i]) {
      assert IsDigit(mac[i]) || 'a' <= mac[i] <= 'f' || mac[i] == '-';
    }
  }

  lemma QuadStartWhole(ip: string)
    requires IsDottedQuad(ip)
    ensures QuadStart(ip, 0) == Some(0)
  {
    assert ip[0..] == ip;
  }

  lemma MatchDataTokens(ip: string, mac: string, kind: string)
    requires IsDottedQuad(ip) && IsMacToken(mac)
    requires kind != [] && WordRunLength(kind) == |kind|
    ensures FirstMatch([ip, mac, kind], 0) == Some(ArpEntry(ip, ReplaceChar(mac, '-', ':'), kind))
  {
    QuadStartWhole(ip);
    assert ip[0..] == ip;
    assert kind[..|kind|] == kind;
    assert MatchAt([ip, mac, kind], 0) == Some(ArpEntry(ip, ReplaceChar(mac, '-', ':'), kind));
  }

  /** A data line `ip  aa-bb-cc-dd-ee-ff  dynamic` gives (ip, colon form, type). */
  lemma WindowsDataLine(ip: string, mac: string, kind: string)
    requires IsField(ip) && IsDottedQuad(ip) && IsMacToken(mac)
    requires IsField(kind) && WordRunLength(kind) == |kind|
    ensures WindowsRow(Join([ip, mac, kind], " "))
            == Some(ArpEntry(ip, ReplaceChar(mac, '-', ':'), kind))
  {
    MacTokenIsField(mac);
    WindowsRowOfThreeFields(ip, mac, kind);
    MatchDataTokens(ip, mac, kind);
  }

  lemma MatchAtData(tokens: seq<string>, i: nat)
    requires i + 2 < |tokens| && IsDottedQuad(tokens[i]) && IsMacToken(tokens[i + 1])
    requires tokens[i + 2] != [] && WordRunLength(tokens[i + 2]) == |tokens[i + 2]|
    ensures MatchAt(tokens, i)
            == Some(ArpEntry(tokens[i], ReplaceChar(tokens[i + 1], '-', ':'), tokens[i + 2]))
  {
    QuadStartWhole(tokens[i]);
    assert tokens[i][0..] == tokens[i];
    assert tokens[i + 2][..|tokens[i + 2]|] == tokens[i + 2];
  }

  lemma HeaderTokensMatch(lab: string, ip: string, dashes: string, index: string)
    requires '.' !in lab && IsDottedQuad(ip) && IsMacToken(dashes)
    requires index != [] && WordRunLength(index) == |index|
    ensures FirstMatch([lab, ip, dashes, index], 0)
            == Some(ArpEntry(ip, ReplaceChar(dashes, '-', ':'), index))
  {
    var tokens := [lab, ip, dashes, index];
    NoDotNoQuad(lab, 0);
    assert MatchAt(tokens, 0).None?;
    MatchAtData(tokens, 1);
  }

  /** A line of whitespace-free fields joined by spaces is matched token by
      token. */
  lemma WindowsRowOfFields(tokens: seq<string>)
    requires forall i :: 0 <= i < |tokens| ==> IsField(tokens[i])
    ensures WindowsRow(Join(tokens, " ")) == FirstMatch(tokens, 0)
  {
    FieldsOfJoin(tokens);
  }

  lemma WindowsRowOfThreeFields(a: string, b: string, c: string)
    requires IsField(a) && IsField(b) && IsField(c)
    ensures WindowsRow(Join([a, b, c], " ")) == FirstMatch([a, b, c], 0)
  {
    WindowsRowOfFields([a, b, c]);
  }

  lemma WindowsRowOfFourFields(a: string, b: string, c: string, d: string)
    requires IsField(a) && IsField(b) && IsField(c) && IsField(d)
    ensures WindowsRow(Join([a, b, c, d], " ")) == FirstMatch([a, b, c, d], 0)
  {
    WindowsRowOfFields([a, b, c, d]);
  }

  /** Any line `<label> <ip> <dashes> <index>` whose first token holds no dot
      matches the pattern at its second token. */
  lemma WindowsHeaderShapeMatches(lab: string, ip: string, dashes: string, index: string)
    requires IsField(lab) && '.' !in lab
    requires IsField(ip) && IsDottedQuad(ip) && IsMacToken(dashes)
    requires IsField(index) && WordRunLength(index) == |index|
    ensures WindowsRow(Join([lab, ip, dashes, index], " "))
            == Some(ArpEntry(ip, ReplaceChar(dashes, '-', ':'), index))
  {
    MacTokenIsField(dashes);
    WindowsRowOfFourFields(lab, ip, dashes, index);
    HeaderTokensMatch(lab, ip, dashes, index);
  }

  /** The first and third tokens of the `Interface: <ip> --- 0x<n>` line that
      `arp -a` prints above each interface's table. */
  const InterfaceLabel: string := "Interface:"
  const InterfaceDashes: string := "---"

  /** That interface header line also matches the pattern: it yields an entry
      for the host's own address whose "MAC" is `:::`. */
  lemma WindowsInterfaceHeaderMatches(ip: string, index: string)
    requires IsField(ip) && IsDottedQuad(ip)
    requires IsField(index) && WordRunLength(index) == |index|
    ensures WindowsRow(Join([InterfaceLabel, ip, InterfaceDashes, index], " "))
            == Some(ArpEntry(ip, ":::", index))
  {
    InterfaceTokensShape();
    WindowsHeaderShapeMatches(InterfaceLabel, ip, InterfaceDashes, index);
  }

  lemma InterfaceTokensShape()
    ensures IsField(InterfaceLabel) && '.' !in InterfaceLabel
    ensures IsMacToken(InterfaceDashes) && ReplaceChar(InterfaceDashes, '-', ':') == ":::"
  {
    assert IsField(InterfaceLabel);
    assert '.' !in InterfaceLabel;
    assert IsMacToken(InterfaceDashes);
  }

  // ------------------------------------------------------------- fallback

  /** The ten rows returned when the listing command fails. */
  const FallbackTable: seq<ArpEntry> := [
    ArpEntry("192.168.1.1", "aa:bb:cc:dd:ee:ff", "eth0"),
    ArpEntry("192.168.1.2", "11:22:33:44:55:66", "eth0"),
    ArpEntry("192.168.1.3", "aa:bb:cc:dd:ee:ff", "eth0"),
    ArpEntry("192.168.1.4", "22:33:44:55:66:77", "eth0"),
    ArpEntry("192.168.1.5", "33:22:55:66:77:88", "eth0"),
    ArpEntry("192.168.1.6", "aa:bb:cc:11:22:33", "eth0"),
    ArpEntry("192.168.1.7", "aa:bb:cc:11:22:33", "eth0"),
    ArpEntry("192.168.1.8", "ff:ff:ff:ff:ff:ff", "eth0"),
    ArpEntry("192.168.1.10", "11:22:33:44:55:66", "eth0"),
    ArpEntry("192.168.1.100", "de:ad:be:ef:12:34", "eth0")
  ]

  /** The fallback table has ten rows; rows 0 and 2 share a MAC under different
      ips, and row 7 is the broadcast address. */
  lemma FallbackTableShape()
    ensures |FallbackTable| == 10
    ensures FallbackTable[0].mac == FallbackTable[2].mac && FallbackTable[0].ip != FallbackTable[2].ip
    ensures FallbackTable[7].mac == "ff:ff:ff:ff:ff:ff"
  {
  }

  /** `get_arp_table` as a value: the parsed table, or the fallback when the
      command raised. */
  function ArpTableOf(platform: Platform, output: Option<string>): seq<ArpEntry> {
    match output
    case None => FallbackTable
    case Some(text) => if platform == Windows then WindowsTable(text) else PosixTable(text)
  }

  method GetArpTable(platform: Platform, output: Option<string>) returns (entries: seq<ArpEntry>)
    ensures entries == ArpTableOf(platform, output)
    ensures output.None? ==> entries == FallbackTable
    ensures platform == Posix && output.Some? ==> forall e :: e in entries ==> WellFormedPosixEntry(e)
    ensures platform == Windows && output.Some? ==> forall e :: e in entries ==> '-' !in e.mac
  {
    match output {
      case None =>
        entries := FallbackTable;
      case Some(text) =>
        if platform == Windows {
          entries := ParseWindowsTable(text);
          WindowsMacsHaveNoHyphen(Lines(text));
        } else {
          entries := ParsePosixTable(text);
          PosixRowsWellFormed(Lines(text)[1..]);
        }
    }
  }
}

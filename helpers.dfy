/**
 * The display helpers: text truncation, MAC and ip display forms, threat
 * level names, the two chart builders and the security score. Scan results
 * reach them as dictionaries, modelled as views whose keys may be missing.
 */
module Helpers {
  import opened Wrappers
  import opened PyText
  import opened Colors
  import AddressFormat
  import ArpTable
  import GatewayResolver
  import Detector
  import Scanner

  // ------------------------------------------------------------ text forms

  const DefaultMaxLength: int := 30
  const Ellipsis: string := "..."

  /** The length of Python's `text[:end]` for a text of length `n`: a
      negative end counts from the back. */
  function SliceEnd(n: nat, end: int): (k: nat)
    ensures k <= n
    ensures end >= 0 ==> k == if end <= n then end else n
    ensures end < 0 ==> k == if n + end >= 0 then n + end else 0
  {
    if end >= 0 then (if end <= n then end else n)
    else if n + end >= 0 then n + end else 0
  }

  /** `truncate_text`: a text longer than the limit keeps a prefix and gets
      `...`. */
  function TruncateText(text: string, maxLength: int): (r: string)
    ensures |text| <= maxLength ==> r == text
    ensures |text| > maxLength ==>
              |r| >= 3 && |r| - 3 <= |text| && r[|r| - 3..] == Ellipsis && r[..|r| - 3] == text[..|r| - 3]
  {
    if |text| <= maxLength then text
    else text[..SliceEnd(|text|, maxLength - 3)] + Ellipsis
  }

  /** With a limit of at least three, a truncated text is exactly as long as
      the limit. */
  lemma TruncateFits(text: string, maxLength: int)
    requires maxLength >= 3
    ensures |TruncateText(text, maxLength)| <= maxLength
    ensures |text| > maxLength ==> |TruncateText(text, maxLength)| == maxLength
  {
  }

  /** `truncate_text(text)` with the default limit of 30: the result never
      exceeds the limit, and a text that fits is kept. */
  function TruncateTextDefault(text: string): (r: string)
    ensures |r| <= DefaultMaxLength
    ensures |text| <= DefaultMaxLength ==> r == text
    ensures |text| > DefaultMaxLength ==> |r| == DefaultMaxLength && r[..DefaultMaxLength - 3] == text[..DefaultMaxLength - 3]
  {
    TruncateFits(text, DefaultMaxLength);
    TruncateText(text, DefaultMaxLength)
  }

  /** Below three, the negative slice end makes every truncated text longer
      than the limit. */
  lemma TruncateSmallLimitOverflows(text: string, maxLength: int)
    requires maxLength < 3 && |text| > maxLength
    ensures |TruncateText(text, maxLength)| > maxLength
  {
  }

  /** The display form `format_mac_for_display` tries: lower case, hyphens
      made colons, whitespace stripped. */
  function NormalizedMac(mac: string): string {
    Strip(ReplaceChar(Lower(mac), '-', ':'))
  }

  /** `format_mac_for_display`: the normalized form when it splits into six
      colon-separated groups, the argument unchanged otherwise. */
  function FormatMacForDisplay(mac: string): (r: string)
    ensures mac == [] ==> r == GatewayResolver.Unknown
    ensures mac != [] ==> r == mac || (r == NormalizedMac(mac) && |Split(r, ":")| == 6)
    ensures mac != [] ==> r == (if |Split(NormalizedMac(mac), ":")| == 6 then NormalizedMac(mac) else mac)
  {
    if mac == [] then GatewayResolver.Unknown
    else
      var formatted := NormalizedMac(mac);
      var parts := Split(formatted, ":");
      JoinSplit(formatted, ":");
      if |parts| == 6 then Join(parts, ":") else mac
  }

  /** The normalized form has no upper-case letter, no hyphen and no
      surrounding whitespace. */
  lemma NormalizedMacShape(mac: string)
    ensures NoUpper(NormalizedMac(mac)) && '-' !in NormalizedMac(mac)
    ensures var f := NormalizedMac(mac); f == [] || (!IsSpace(f[0]) && !IsSpace(f[|f| - 1]))
  {
    var replaced := ReplaceChar(Lower(mac), '-', ':');
    StripKeepsChars(replaced);
    StripEnds(replaced);
    var f := NormalizedMac(mac);
    forall i | 0 <= i < |f| ensures !IsUpper(f[i]) && f[i] != '-' {
      assert f[i] in replaced;
    }
  }

  /** A text with no upper-case letter, no hyphen and no surrounding
      whitespace is already normalized. */
  lemma NormalFormFixed(s: string)
    requires NoUpper(s) && '-' !in s
    requires s == [] || (!IsSpace(s[0]) && !IsSpace(s[|s| - 1]))
    ensures NormalizedMac(s) == s
  {
    LowerFixesLowerCase(s);
    assert ReplaceChar(s, '-', ':') == s;
    StripFixesTrimmed(s);
  }

  /** A normalized form is its own normalization. */
  lemma NormalizedMacFixed(mac: string)
    ensures NormalizedMac(NormalizedMac(mac)) == NormalizedMac(mac)
  {
    NormalizedMacShape(mac);
    NormalFormFixed(NormalizedMac(mac));
  }

  /** A text with neither colon nor hyphen does not split into six groups,
      so display leaves it unchanged. */
  lemma UnseparatedShownAsIs(mac: string)
    requires mac != [] && ':' !in mac && '-' !in mac
    ensures FormatMacForDisplay(mac) == mac
  {
    var lowered := Lower(mac);
    forall i | 0 <= i < |lowered| ensures lowered[i] != ':' && lowered[i] != '-' {
      assert lowered[i] == LowerChar(mac[i]);
      assert mac[i] != ':' && mac[i] != '-';
    }
    var replaced := ReplaceChar(lowered, '-', ':');
    assert ':' !in replaced;
    StripKeepsChars(replaced);
    var f := NormalizedMac(mac);
    NoCharNoIndex(f, ':');
    assert Split(f, ":") == [f];
  }

  /** The sentinel shown for an empty MAC is shown as it is. */
  lemma UnknownMacShownAsIs()
    ensures FormatMacForDisplay(GatewayResolver.Unknown) == GatewayResolver.Unknown
  {
    UnseparatedShownAsIs(GatewayResolver.Unknown);
  }

  /** A MAC that display rewrote is shown as it is the second time. */
  lemma RewrittenMacShownAsIs(mac: string)
    requires mac != [] && FormatMacForDisplay(mac) != mac
    ensures FormatMacForDisplay(FormatMacForDisplay(mac)) == FormatMacForDisplay(mac)
  {
    var r := FormatMacForDisplay(mac);
    assert r == NormalizedMac(mac) && |Split(r, ":")| == 6;
    NormalizedMacFixed(mac);
    assert r != [];
  }

  /** Showing a shown MAC again changes nothing, whatever the input. */
  lemma MacDisplayIdempotent(mac: string)
    ensures FormatMacForDisplay(FormatMacForDisplay(mac)) == FormatMacForDisplay(mac)
  {
    if mac == [] {
      UnknownMacShownAsIs();
    } else if FormatMacForDisplay(mac) != mac {
      RewrittenMacShownAsIs(mac);
    }
  }

  /** A six-byte packed MAC, once formatted, is shown as it is. */
  lemma MacDisplayOfPacked(bs: seq<AddressFormat.Byte>)
    requires |bs| == 6
    ensures FormatMacForDisplay(AddressFormat.FormatMac(AddressFormat.Packed(bs)))
            == AddressFormat.FormatMac(AddressFormat.Packed(bs))
  {
    var s := AddressFormat.FormatMac(AddressFormat.Packed(bs));
    PackedMacText(bs);
    NormalFormFixed(s);
  }

  /** The text of six packed bytes: six colon-separated groups, lower case,
      no hyphen, no surrounding whitespace. */
  lemma PackedMacText(bs: seq<AddressFormat.Byte>)
    requires |bs| == 6
    ensures var s := AddressFormat.FormatMac(AddressFormat.Packed(bs));
            NoUpper(s) && '-' !in s && |Split(s, ":")| == 6
            && s != [] && !IsSpace(s[0]) && !IsSpace(s[|s| - 1])
  {
    var pairs := AddressFormat.HexPairs(bs);
    forall i | 0 <= i < |pairs| ensures AddressFormat.IsHexPair(pairs[i]) {
      AddressFormat.HexPairRoundTrip(bs[i]);
    }
    JoinedPairsText(pairs);
  }

  lemma JoinedPairsText(pairs: seq<string>)
    requires |pairs| == 6
    requires forall i :: 0 <= i < |pairs| ==> AddressFormat.IsHexPair(pairs[i])
    ensures var s := Join(pairs, ":");
            NoUpper(s) && '-' !in s && |Split(s, ":")| == 6
            && s != [] && !IsSpace(s[0]) && !IsSpace(s[|s| - 1])
  {
    forall p | p in pairs ensures ':' !in p && '-' !in p {
      var i :| 0 <= i < |pairs| && pairs[i] == p;
      assert AddressFormat.IsHexPair(p);
    }
    AddressFormat.JoinPairsShape(pairs);
    SplitJoin(pairs, ':');
    JoinNoHyphen(pairs);
    JoinedPairsEnds(pairs);
  }

  lemma JoinedPairsEnds(pairs: seq<string>)
    requires |pairs| >= 1
    requires forall i :: 0 <= i < |pairs| ==> AddressFormat.IsHexPair(pairs[i])
    ensures var s := Join(pairs, ":"); s != [] && !IsSpace(s[0]) && !IsSpace(s[|s| - 1])
  {
    var s := Join(pairs, ":");
    var first := pairs[0];
    var last := pairs[|pairs| - 1];
    assert AddressFormat.IsHexPair(first) && AddressFormat.IsHexPair(last);
    JoinFirstChar(pairs);
    JoinLastChar(pairs);
    assert s[0] == first[0] && s[|s| - 1] == last[1];
  }

  lemma JoinFirstChar(parts: seq<string>)
    requires |parts| >= 1 && parts[0] != []
    ensures var s := Join(parts, ":"); |s| >= 1 && s[0] == parts[0][0]
  {
  }

  lemma {:induction false} JoinNoHyphen(parts: seq<string>)
    requires forall p :: p in parts ==> '-' !in p
    ensures '-' !in Join(parts, ":")
  {
    if |parts| > 1 {
      JoinNoHyphen(parts[1..]);
    }
  }

  lemma {:induction false} JoinLastChar(parts: seq<string>)
    requires |parts| >= 1 && parts[|parts| - 1] != []
    ensures var s := Join(parts, ":"); |s| >= 1 && s[|s| - 1] == parts[|parts| - 1][|parts[|parts| - 1]| - 1]
  {
    if |parts| > 1 {
      JoinLastChar(parts[1..]);
    }
  }

  /** What `int(p)` accepts here: decimal digits. */
  predicate IsOctetText(p: string) {
    p != [] && (forall i :: 0 <= i < |p| ==> IsDigit(p[i])) && DecimalValue(p) <= 255
  }

  /** `format_ip_for_display`: the sentinel for an empty or unresolved ip;
      every other text comes back unchanged, whether or not it passes the
      dotted-quad check. */
  function FormatIpForDisplay(ip: string): (r: string)
    ensures ip == [] || ip == GatewayResolver.Unknown ==> r == GatewayResolver.Unknown
    ensures ip != [] && ip != GatewayResolver.Unknown ==> r == ip
  {
    if ip == [] || ip == GatewayResolver.Unknown then GatewayResolver.Unknown
    else
      var parts := Split(ip, ".");
      if |parts| == 4 && forall i :: 0 <= i < 4 ==> IsOctetText(parts[i]) then ip else ip
  }

  /** A formatted four-byte address is shown as it is. */
  lemma IpDisplayOfPacked(bs: seq<AddressFormat.Byte>)
    requires |bs| == 4
    ensures AddressFormat.FormatIp(AddressFormat.Packed(bs)).Ok?
    ensures var s := AddressFormat.FormatIp(AddressFormat.Packed(bs)).value;
            FormatIpForDisplay(s) == s
  {
    AddressFormat.IpRoundTrip(bs);
    var s := AddressFormat.FormatIp(AddressFormat.Packed(bs)).value;
    assert |Split(s, ".")| == 4;
    assert s != GatewayResolver.Unknown by {
      NoCharNoIndex(GatewayResolver.Unknown, '.');
      assert Split(GatewayResolver.Unknown, ".") == [GatewayResolver.Unknown];
    }
  }

  /** `threat_level_to_text`. */
  function ThreatLevelToText(level: string): (text: string)
    ensures level == Detector.High ==> text == "Yüksek Tehlike"
    ensures level == Detector.Medium ==> text == "Orta Seviye Tehlike"
    ensures level == Detector.NoThreat ==> text == "Güvenli"
    ensures level !in {Detector.High, Detector.Medium, Detector.NoThreat} ==> text == GatewayResolver.Unknown
  {
    if level == Detector.High then "Yüksek Tehlike"
    else if level == Detector.Medium then "Orta Seviye Tehlike"
    else if level == Detector.NoThreat then "Güvenli"
    else GatewayResolver.Unknown
  }

  /** Every level a scan can have has a name; "low", which has a status
      colour, has none. */
  lemma ScanLevelsHaveText(findings: seq<Detector.Finding>)
    ensures ThreatLevelToText(Scanner.ThreatLevelOf(findings)) != GatewayResolver.Unknown
    ensures ThreatLevelToText("low") == GatewayResolver.Unknown
    ensures StatusColor("low") == "#2196F3"
  {
    assert NoUpper("low");
    LowerFixesLowerCase("low");
  }

  // ------------------------------------------------------------ result views

  /** A finding as a dictionary: `threat_level` and `type` may be missing. */
  datatype EntryView = EntryView(threatLevel: Option<string>, kind: Option<string>)

  datatype GatewayView = GatewayView(ip: Option<string>, mac: Option<string>)

  /** A non-empty scan-result dictionary; each key may be missing. */
  datatype ResultView = ResultView(
    threatLevel: Option<string>,
    suspicious: Option<seq<EntryView>>,
    gateway: Option<GatewayView>)

  function EntryViewOf(f: Detector.Finding): EntryView {
    EntryView(Some(Detector.Level(f)), Some(Detector.TypeName(f)))
  }

  function EntryViews(fs: seq<Detector.Finding>): (r: seq<EntryView>)
    ensures |r| == |fs|
    ensures forall i :: 0 <= i < |fs| ==> r[i] == EntryViewOf(fs[i])
  {
    seq(|fs|, i requires 0 <= i < |fs| => EntryViewOf(fs[i]))
  }

  /** The dictionary the scanner builds for one result. */
  function ViewOf(r: Scanner.ScanResult): ResultView {
    ResultView(Some(r.threatLevel), Some(EntryViews(r.suspicious)),
               Some(GatewayView(Some(r.gateway.ip), Some(r.gateway.mac))))
  }

  /** `result.get("threat_level", "unknown")`. */
  function LevelOf(v: ResultView): string {
    match v.threatLevel
    case Some(level) => level
    case None => "unknown"
  }

  /** `scan.get("suspicious_entries", [])`. */
  function EntriesOf(v: ResultView): seq<EntryView> {
    match v.suspicious
    case Some(es) => es
    case None => []
  }

  datatype Bar = Bar(name: string, value: int, color: string)

  // ------------------------------------------------------------ threat chart

  const CountedLevels: set<string> := {"high", "medium", "none", "unknown"}

  function CountLevel(results: seq<ResultView>, level: string): nat {
    if results == [] then 0
    else CountLevel(results[..|results| - 1], level) + (if LevelOf(results[|results| - 1]) == level then 1 else 0)
  }

  /** The level of the first result the count table has no key for. */
  function FirstUncounted(results: seq<ResultView>): (r: Option<string>)
    ensures r.Some? ==> r.value !in CountedLevels
  {
    if results == [] then None
    else if LevelOf(results[0]) in CountedLevels then FirstUncounted(results[1..])
    else Some(LevelOf(results[0]))
  }

  /** `create_threat_data_chart`: three bars, or the `KeyError` the count
      table raises for a level it has no key for. */
  function ThreatDataChart(results: seq<ResultView>): Result<seq<Bar>, string> {
    if results == [] then Ok([])
    else
      match FirstUncounted(results)
      case Some(level) => Err(level)
      case None =>
        Ok([Bar("Yüksek", CountLevel(results, "high"), ThemeColor("error")),
            Bar("Orta", CountLevel(results, "medium"), ThemeColor("warning")),
            Bar("Güvenli", CountLevel(results, "none"), ThemeColor("success"))])
  }

  /** A counted level at `i` does not change the first uncounted level from
      `i` on. */
  lemma FirstUncountedPast(results: seq<ResultView>, i: nat)
    requires i < |results| && LevelOf(results[i]) in CountedLevels
    ensures FirstUncounted(results[i..]) == FirstUncounted(results[i + 1..])
  {
    assert results[i..][1..] == results[i + 1..];
  }

  /** An uncounted level at `i` is the first uncounted level from `i` on. */
  lemma FirstUncountedAt(results: seq<ResultView>, i: nat)
    requires i < |results| && LevelOf(results[i]) !in CountedLevels
    ensures FirstUncounted(results[i..]) == Some(LevelOf(results[i]))
  {
    assert results[i..][0] == results[i];
  }

  /** The counting loop of `create_threat_data_chart`: the count table, or
      the first level it has no key for. */
  method TallyLevels(results: seq<ResultView>) returns (tally: Result<map<string, nat>, string>)
    ensures tally.Err? <==> FirstUncounted(results).Some?
    ensures tally.Err? ==> tally.error == FirstUncounted(results).value
    ensures tally.Ok? ==> tally.value == TallyOf(results)
  {
    var counts: map<string, nat> := map["high" := 0, "medium" := 0, "none" := 0, "unknown" := 0];
    TallyEmpty(results);
    assert results[0..] == results;
    for i := 0 to |results|
      invariant FirstUncounted(results[i..]) == FirstUncounted(results)
      invariant counts == TallyOf(results[..i])
    {
      var level := LevelOf(results[i]);
      if level !in counts {
        FirstUncountedAt(results, i);
        return Err(level);
      }
      FirstUncountedPast(results, i);
      TallyStep(results, i);
      counts := counts[level := counts[level] + 1];
    }
    assert results[..|results|] == results;
    assert results[|results|..] == [];
    return Ok(counts);
  }

  /** The count table after some results: a key per counted level. */
  function TallyOf(results: seq<ResultView>): (t: map<string, nat>)
    ensures t.Keys == CountedLevels
    ensures forall l :: l in t ==> t[l] == CountLevel(results, l)
  {
    map l | l in CountedLevels :: CountLevel(results, l)
  }

  lemma TallyEmpty(results: seq<ResultView>)
    ensures TallyOf(results[..0]) == map["high" := 0, "medium" := 0, "none" := 0, "unknown" := 0]
  {
    assert results[..0] == [];
  }

  lemma TallyStep(results: seq<ResultView>, i: nat)
    requires i < |results| && LevelOf(results[i]) in CountedLevels
    ensures var t := TallyOf(results[..i]);
            TallyOf(results[..i + 1]) == t[LevelOf(results[i]) := t[LevelOf(results[i])] + 1]
  {
    var t := TallyOf(results[..i]);
    var level := LevelOf(results[i]);
    forall l | l in CountedLevels
      ensures TallyOf(results[..i + 1])[l] == t[level := t[level] + 1][l]
    {
      CountLevelStep(results, i, l);
    }
  }

  method CreateThreatDataChart(results: seq<ResultView>) returns (chart: Result<seq<Bar>, string>)
    ensures chart == ThreatDataChart(results)
  {
    if |results| == 0 {
      return Ok([]);
    }
    var tally := TallyLevels(results);
    if tally.Err? {
      return Err(tally.error);
    }
    var counts := tally.value;
    chart := Ok([Bar("Yüksek", counts["high"], ThemeColor("error")),
                 Bar("Orta", counts["medium"], ThemeColor("warning")),
                 Bar("Güvenli", counts["none"], ThemeColor("success"))]);
  }

  lemma CountLevelStep(results: seq<ResultView>, i: nat, level: string)
    requires i < |results|
    ensures CountLevel(results[..i + 1], level)
            == CountLevel(results[..i], level) + (if LevelOf(results[i]) == level then 1 else 0)
  {
    assert results[..i + 1][..i] == results[..i];
  }

  lemma {:induction false} CountLevelsTotal(results: seq<ResultView>)
    requires forall j :: 0 <= j < |results| ==> LevelOf(results[j]) in CountedLevels
    ensures CountLevel(results, "high") + CountLevel(results, "medium") + CountLevel(results, "none")
            + CountLevel(results, "unknown") == |results|
  {
    if results != [] {
      CountLevelsTotal(results[..|results| - 1]);
    }
  }

  lemma {:induction false} FirstUncountedNone(results: seq<ResultView>)
    ensures FirstUncounted(results).None? <==> forall j :: 0 <= j < |results| ==> LevelOf(results[j]) in CountedLevels
  {
    if results != [] {
      FirstUncountedNone(results[1..]);
      assert forall j :: 1 <= j < |results| ==> results[j] == results[1..][j - 1];
    }
  }

  /** The chart fails exactly when some result has a level outside the count
      table; otherwise its bars, with the results of unknown level, count
      every result once. */
  lemma ThreatChartCounts(results: seq<ResultView>)
    ensures ThreatDataChart(results).Err? <==> exists j :: 0 <= j < |results| && LevelOf(results[j]) !in CountedLevels
    ensures results != [] && ThreatDataChart(results).Ok? ==>
              var bars := ThreatDataChart(results).value;
              |bars| == 3 && bars[0].value + bars[1].value + bars[2].value + CountLevel(results, "unknown") == |results|
  {
    FirstUncountedNone(results);
    if results != [] && ThreatDataChart(results).Ok? {
      CountLevelsTotal(results);
    }
  }

  /** Results the scanner produced, whose level is the one it computes from
      their findings, never make the chart fail. */
  lemma ScannerResultsChart(results: seq<Scanner.ScanResult>)
    requires forall i :: 0 <= i < |results| ==>
               results[i].threatLevel == Scanner.ThreatLevelOf(results[i].suspicious)
    ensures ThreatDataChart(seq(|results|, i requires 0 <= i < |results| => ViewOf(results[i]))).Ok?
  {
    var views := seq(|results|, i requires 0 <= i < |results| => ViewOf(results[i]));
    forall j | 0 <= j < |views| ensures LevelOf(views[j]) in CountedLevels {
      assert views[j] == ViewOf(results[j]);
    }
    ThreatChartCounts(views);
  }

  // ------------------------------------------------------------ history chart

  const HistoryBars: nat := 5

  function HighThreats(entries: seq<EntryView>): nat {
    if entries == [] then 0
    else HighThreats(entries[..|entries| - 1]) + (if entries[|entries| - 1].threatLevel == Some("high") then 1 else 0)
  }

  function Min(a: nat, b: nat): nat { if a <= b then a else b }

  /** `create_scan_history_chart`: one bar per scan among the last five,
      most recent first, labelled 1, 2, ... and valued by its high
      findings. */
  function ScanHistoryChart(history: seq<ResultView>): (bars: seq<Bar>)
    ensures |bars| == Min(HistoryBars, |history|)
  {
    var n := |history|;
    seq(Min(HistoryBars, n), i requires 0 <= i < Min(HistoryBars, n) => HistoryBar(history, i, ThemeColor("error")))
  }

  /** The bar for the scan `i` places before the latest one. */
  function HistoryBar(history: seq<ResultView>, i: nat, color: string): Bar
    requires i < |history|
  {
    Bar(Decimal(i + 1), HighThreats(EntriesOf(history[|history| - 1 - i])), color)
  }

  function Reversed<T>(s: seq<T>): (r: seq<T>)
    ensures |r| == |s|
    ensures forall i :: 0 <= i < |s| ==> r[i] == s[|s| - 1 - i]
  {
    seq(|s|, i requires 0 <= i < |s| => s[|s| - 1 - i])
  }

  method CreateScanHistoryChart(history: seq<ResultView>) returns (bars: seq<Bar>)
    ensures bars == ScanHistoryChart(history)
  {
    if |history| == 0 {
      return [];
    }
    var n := |history|;
    var k := Min(HistoryBars, n);
    var lastScans := Reversed(history[n - k..]);
    var color := ThemeColor("error");
    bars := [];
    for i := 0 to |lastScans|
      invariant |bars| == i
      invariant forall j :: 0 <= j < i ==> bars[j] == HistoryBar(history, j, color)
    {
      assert lastScans[i] == history[n - 1 - i];
      var highThreats := HighThreats(EntriesOf(lastScans[i]));
      bars := bars + [Bar(Decimal(i + 1), highThreats, color)];
    }
  }

  /** The first bar is the most recent scan and the last bar the oldest of
      the five shown. */
  lemma HistoryChartOrder(history: seq<ResultView>)
    requires history != []
    ensures var bars := ScanHistoryChart(history);
            bars[0].name == "1"
            && bars[0].value == HighThreats(EntriesOf(history[|history| - 1]))
            && bars[|bars| - 1].value == HighThreats(EntriesOf(history[|history| - |bars|]))
  {
  }

  lemma {:induction false} HighThreatsOfFindings(fs: seq<Detector.Finding>)
    ensures HighThreats(EntryViews(fs)) == CountHigh(fs)
  {
    if fs != [] {
      HighThreatsOfFindings(fs[..|fs| - 1]);
      assert EntryViews(fs)[..|fs| - 1] == EntryViews(fs[..|fs| - 1]);
    }
  }

  function CountHigh(fs: seq<Detector.Finding>): nat {
    if fs == [] then 0
    else CountHigh(fs[..|fs| - 1]) + (if fs[|fs| - 1].GatewayMultipleMacs? then 1 else 0)
  }

  lemma {:induction false} CountHighSections(a: seq<Detector.Finding>, b: seq<Detector.Finding>)
    ensures CountHigh(a + b) == CountHigh(a) + CountHigh(b)
  {
    if b == [] {
      assert a + b == a;
    } else {
      var ab := a + b;
      assert ab[..|ab| - 1] == a + b[..|b| - 1];
      assert ab[|ab| - 1] == b[|b| - 1];
      CountHighSections(a, b[..|b| - 1]);
    }
  }

  /** A bar for a result the scanner produced is 0 or 1: a scan has at most
      one high finding. */
  lemma ScannerBarAtMostOne(table: seq<ArpTable.ArpEntry>, gw: GatewayResolver.Gateway)
    ensures HighThreats(EntryViews(Detector.Detect(table, gw))) <= 1
  {
    var m := Detector.MultipleIpsFindings(Detector.MacOrder(table), table);
    var g := Detector.GatewayFindings(table, gw);
    var n := Detector.InfoFindings(table);
    Detector.MultipleIpsMembers(Detector.MacOrder(table), table);
    Detector.InfoKinds(table);
    HighThreatsOfFindings(Detector.Detect(table, gw));
    CountHighSections(m + g, n);
    CountHighSections(m, g);
    NoHighIn(m);
    NoHighIn(n);
    assert CountHigh(g) <= 1 by {
      if g != [] {
        assert g[..0] == [];
      }
    }
  }

  lemma {:induction false} NoHighIn(fs: seq<Detector.Finding>)
    requires forall f :: f in fs ==> !f.GatewayMultipleMacs?
    ensures CountHigh(fs) == 0
  {
    if fs != [] {
      NoHighIn(fs[..|fs| - 1]);
    }
  }

  // ------------------------------------------------------------ security score

  const InfoPrefix: string := "info_"
  const PenaltyPerThreat: int := 5
  const MaxThreatPenalty: int := 40
  const GatewayPenalty: int := 10

  /** `entry.get("type", "")`. */
  function KindOf(e: EntryView): string {
    match e.kind
    case Some(k) => k
    case None => []
  }

  /** The entries whose type does not start with `info_`. */
  function RealThreats(entries: seq<EntryView>): nat {
    if entries == [] then 0
    else RealThreats(entries[..|entries| - 1]) + (if StartsWith(KindOf(entries[|entries| - 1]), InfoPrefix) then 0 else 1)
  }

  function BaseScore(level: string): int {
    if level == "high" then 20
    else if level == "medium" then 60
    else if level == "none" then 100
    else 50
  }

  /** The gateway penalty applies only when a key holds the sentinel; a
      missing gateway costs nothing. */
  function GatewayPenaltyOf(v: ResultView): int {
    var gw := match v.gateway case Some(g) => g case None => GatewayView(None, None);
    if gw.ip == Some(GatewayResolver.Unknown) || gw.mac == Some(GatewayResolver.Unknown) then GatewayPenalty else 0
  }

  /** `get_network_security_score`; `None` stands for a missing or empty
      result. */
  function NetworkSecurityScore(result: Option<ResultView>): (score: int)
    ensures 0 <= score <= 100
    ensures result.None? ==> score == 0
  {
    match result
    case None => 0
    case Some(v) =>
      var threatPenalty := Min(RealThreats(EntriesOf(v)) * PenaltyPerThreat, MaxThreatPenalty);
      var s := BaseScore(LevelOf(v)) - threatPenalty - GatewayPenaltyOf(v);
      if s < 0 then 0 else s
  }

  /** One more real threat never raises the score. */
  lemma ScoreAntitone(v: ResultView, extra: EntryView)
    requires !StartsWith(KindOf(extra), InfoPrefix)
    ensures NetworkSecurityScore(Some(v.(suspicious := Some(EntriesOf(v) + [extra]))))
            <= NetworkSecurityScore(Some(v))
  {
    var es := EntriesOf(v) + [extra];
    assert es[..|es| - 1] == EntriesOf(v);
  }

  /** A clean scan with a resolved gateway scores 100; each real threat then
      costs 5 points, up to 40. */
  lemma CleanScanScore(v: ResultView)
    requires LevelOf(v) == "none" && GatewayPenaltyOf(v) == 0
    ensures NetworkSecurityScore(Some(v)) == 100 - Min(RealThreats(EntriesOf(v)) * PenaltyPerThreat, MaxThreatPenalty)
  {
  }

  lemma {:induction false} RealThreatsOfFindings(fs: seq<Detector.Finding>, k: nat)
    requires k < |fs| && (fs[k].MultipleIps? || fs[k].GatewayMultipleMacs?)
    ensures RealThreats(EntryViews(fs)) >= 1
  {
    var n := |fs| - 1;
    var views := EntryViews(fs);
    assert views[..n] == EntryViews(fs[..n]);
    if k < n {
      RealThreatsOfFindings(fs[..n], k);
    } else {
      var kind := KindOf(views[n]);
      assert kind[0] != InfoPrefix[0];
      assert !StartsWith(kind, InfoPrefix);
    }
  }

  /** A scan the scanner rated high scores at most 15. */
  lemma HighScanScore(r: Scanner.ScanResult)
    requires r.threatLevel == Scanner.ThreatLevelOf(r.suspicious)
    requires r.threatLevel == Detector.High
    ensures NetworkSecurityScore(Some(ViewOf(r))) <= 15
  {
    var f :| f in r.suspicious && Detector.Level(f) == Detector.High;
    var k :| 0 <= k < |r.suspicious| && r.suspicious[k] == f;
    RealThreatsOfFindings(r.suspicious, k);
    var v := ViewOf(r);
    assert LevelOf(v) == "high";
    assert EntriesOf(v) == EntryViews(r.suspicious);
    assert BaseScore(LevelOf(v)) == 20;
  }
}

# NetworkShieldPro ARP-spoofing monitor, modelled in Dafny

This project models the core of NetworkShieldPro's ARP-spoofing monitor:

- reading the ARP cache (`get_arp_table`) and the default gateway (`get_default_gateway`);
- the spoofing detector (`detect_arp_spoofing`);
- the `ARPScanner` that runs one-shot and periodic scans and keeps a history of results;
- the display helpers and colour tables that turn results into text, charts and a security score.

Modules:

| file | module | models |
|---|---|---|
| `wrappers.dfy` | `Wrappers` | `Option` and `Result` |
| `text.dfy` | `PyText` | the Python `str` operations the core uses, written out: `lower`, `replace`, `strip`, `split()`, `split(sep)`, `join`, `in`, `startswith`, `str(int)` |
| `address.dfy` | `AddressFormat` | `format_mac`, `format_ip` and the text they produce |
| `arp_table.dfy` | `ArpTable` | `get_arp_table`: POSIX and Windows parsing and the ten-row fallback table |
| `gateway.dfy` | `GatewayResolver` | `get_default_gateway`: the Windows `ipconfig` / `arp -a` lookup, the Linux `ip route` / `ip neigh` lookup, and the fallbacks |
| `detector.dfy` | `Detector` | `detect_arp_spoofing`: the specification function `Detect`, the loop method `DetectArpSpoofing` proved against it, and its properties |
| `scanner.dfy` | `Scanner` | class `ArpScanner`, with the two worker threads as step methods, and the threat level and the 100-entry history |
| `colors.dfy` | `Colors` | `THEME`, `THEMES` and `get_status_color` |
| `helpers.dfy` | `Helpers` | `truncate_text`, `format_mac_for_display`, `format_ip_for_display`, `threat_level_to_text`, `create_threat_data_chart`, `create_scan_history_chart` and `get_network_security_score` |

What the model takes as inputs instead of doing it:

- **Command output.** The output of each external command (`arp -a`, `arp -n`, `ipconfig`, `arp -a <ip>`, `ip route show default`, `ip neigh show <ip>`) is a parameter of type `Option<string>`. `None` means the command raised.
- **Platform.** The platform is a parameter.
- **Clock.** The clock readings of a scan are integer parameters.
- **Settings store.** The settings store is a map held by the scanner.
- **Gateway lookups.** A scan looks the gateway up twice: once for the result, and once inside the detector. These two lookups are two separate probe parameters, because the two commands may print different things.
- **Dictionaries.** Scan results reach the display helpers as dictionaries read with `.get` defaults. `Helpers.ResultView` models such a dictionary with an `Option` for each key. `Helpers.ViewOf` builds the view of a result the scanner produced.

## Model

| member | source | states |
|---|---|---|
| AddressFormat.HexPairs | NetworkShieldPro/modules/arp_detector.py:27 | each byte becomes its own two-digit lower-case hexadecimal pair, in order |
| AddressFormat.HexPairRoundTrip | NetworkShieldPro/modules/arp_detector.py:27 | reading a formatted pair back gives the byte |
| AddressFormat.MacRoundTrip | NetworkShieldPro/modules/arp_detector.py:24-28 | parsing the colon-joined text of non-empty packed bytes gives the bytes back |
| AddressFormat.FormatMac | NetworkShieldPro/modules/arp_detector.py:24-28 | text is returned unchanged; packed bytes give 3n-1 lower-case characters whose colon-separated groups are the bytes' two-digit hexadecimal pairs, in order; no bytes give the empty text |
| AddressFormat.DottedQuadParts | NetworkShieldPro/modules/arp_detector.py:31-35 | each byte becomes its decimal text |
| AddressFormat.FormatIp | NetworkShieldPro/modules/arp_detector.py:31-35 | text is returned unchanged; packed bytes succeed exactly when there are four, and their dotted text splits into the four decimal octets; any other length gives `PackedLengthNotFour` with that length |
| AddressFormat.IpWrongLength | NetworkShieldPro/modules/arp_detector.py:31-35 | a packed address whose length is not four is rejected, as `inet_ntoa` rejects it |
| AddressFormat.IpRoundTrip | NetworkShieldPro/modules/arp_detector.py:31-35 | four packed bytes format, and parsing the dotted text gives them back |
| ArpTable.ParsePosixTable | NetworkShieldPro/modules/arp_detector.py:60-72 | the loop over the lines after the header builds exactly the table `PosixTable` defines |
| ArpTable.PosixRowWellFormed | NetworkShieldPro/modules/arp_detector.py:65-72 | a kept line gives whitespace-free ip and MAC fields, never `(incomplete)`, and an interface that is a field or `unknown` |
| ArpTable.PosixRowsWellFormed | NetworkShieldPro/modules/arp_detector.py:64-72 | every parsed POSIX entry is well formed, and there is at most one entry per line |
| ArpTable.PosixRowsAppend | NetworkShieldPro/modules/arp_detector.py:64-72 | lines are parsed independently: the rows of two stretches of output are the rows of each, in order |
| ArpTable.PosixHeaderIgnored | NetworkShieldPro/modules/arp_detector.py:64 | the first line is skipped, so any one-line header gives the same table |
| ArpTable.PosixDataLine | NetworkShieldPro/modules/arp_detector.py:66-72 | a five-field line gives (field 0, field 2, last field) |
| ArpTable.PosixThreeFields | NetworkShieldPro/modules/arp_detector.py:70 | a three-field line gets the interface `unknown` |
| ArpTable.PosixIncompleteDropped | NetworkShieldPro/modules/arp_detector.py:71 | an `(incomplete)` row is dropped |
| ArpTable.QuadStartLeftmost | NetworkShieldPro/modules/arp_detector.py:53-55 | the start found is one at which the rest of the token is `\d+\.\d+\.\d+\.\d+`, and no earlier start is |
| ArpTable.QuadStartAbsent | NetworkShieldPro/modules/arp_detector.py:53-55 | when no start is found, no position of the token starts an ip match |
| ArpTable.NoDotNoQuad | NetworkShieldPro/modules/arp_detector.py:53 | a token without a dot holds no ip match |
| ArpTable.ParseWindowsTable | NetworkShieldPro/modules/arp_detector.py:49-59 | the loop over every line builds exactly the table `WindowsTable` defines |
| ArpTable.MatchAtNoHyphen | NetworkShieldPro/modules/arp_detector.py:58 | a MAC matched in one line has all its hyphens replaced |
| ArpTable.WindowsMacsHaveNoHyphen | NetworkShieldPro/modules/arp_detector.py:58 | no MAC read from Windows output keeps a hyphen |
| ArpTable.MatchDataTokens | NetworkShieldPro/modules/arp_detector.py:53-59 | tokens (ip, MAC, word) match as (ip, MAC with colons, word) |
| ArpTable.WindowsDataLine | NetworkShieldPro/modules/arp_detector.py:53-59 | a data line `ip aa-bb-.. dynamic` gives the entry with the colon form of the MAC |
| ArpTable.WindowsHeaderShapeMatches | NetworkShieldPro/modules/arp_detector.py:53-59 | any line `<label> <ip> <dashes> <index>` whose label has no dot also gives an entry |
| ArpTable.WindowsInterfaceHeaderMatches | NetworkShieldPro/modules/arp_detector.py:53-59 | the `Interface: <ip> --- 0x<n>` header line is itself read as an entry, with MAC `:::` |
| ArpTable.FallbackTableShape | NetworkShieldPro/modules/arp_detector.py:82-93 | the fallback table has ten rows; two rows share a MAC under different ips; one row is the broadcast MAC |
| ArpTable.GetArpTable | NetworkShieldPro/modules/arp_detector.py:38-95 | the parsed table of the platform, or the fallback table when the command failed; POSIX entries are well formed and Windows MACs have no hyphen |
| GatewayResolver.FindGatewayIp | NetworkShieldPro/modules/arp_detector.py:109-118 | the loop stops at the first label line that `split(":")` cuts into pieces, and returns its stripped second piece |
| GatewayResolver.FindGatewayMac | NetworkShieldPro/modules/arp_detector.py:124-133 | the loop returns the second field, hyphens made colons, of the first line that holds the ip and has two fields |
| GatewayResolver.GetDefaultGateway | NetworkShieldPro/modules/arp_detector.py:98-164 | the gateway `GatewayOf` defines; the fixed test gateway when `ipconfig` fails; the unresolved pair when a Linux command fails |
| GatewayResolver.LabelValueSkips | NetworkShieldPro/modules/arp_detector.py:112-118 | lines that are not gateway lines do not affect the result |
| GatewayResolver.LabelValueFirst | NetworkShieldPro/modules/arp_detector.py:112-118 | the first gateway line decides, whatever follows it |
| GatewayResolver.WindowsBlankFirstGateway | NetworkShieldPro/modules/arp_detector.py:117-142 | an empty first "Default Gateway" value gives the unresolved pair, even when a later adapter has a gateway |
| GatewayResolver.MacColumnShape | NetworkShieldPro/modules/arp_detector.py:126-131 | a MAC found is a whitespace-free field with no hyphen |
| GatewayResolver.WindowsResolvedShape | NetworkShieldPro/modules/arp_detector.py:120-139 | once a non-empty ip is found it is kept, and the MAC is either `Bilinmiyor` or a whitespace-free field with no hyphen |
| GatewayResolver.ContainsTransitive | NetworkShieldPro/modules/arp_detector.py:127 | the substring test is transitive |
| GatewayResolver.WindowsMacFromInterfaceLine | NetworkShieldPro/modules/arp_detector.py:126-133 | the substring test also matches the `Interface: <host ip>` header when the gateway ip is a prefix of the host ip, and the host ip is then returned as the MAC |
| GatewayResolver.SplitSecondPiece | NetworkShieldPro/modules/arp_detector.py:147 | `split(marker)[1]` exists exactly when the marker occurs |
| GatewayResolver.LinuxOutcomes | NetworkShieldPro/modules/arp_detector.py:144-157 | on Linux the result is the unresolved pair exactly when a command failed or a marker is missing; otherwise it is the two words after the markers |
| GatewayResolver.WordAfterAt | NetworkShieldPro/modules/arp_detector.py:147-151 | the word after the first marker is returned |
| GatewayResolver.LinuxRouteWord | NetworkShieldPro/modules/arp_detector.py:146-147 | `default via <ip> ...` gives `<ip>` |
| GatewayResolver.WordAfterMarker | NetworkShieldPro/modules/arp_detector.py:147-151 | for a marker whose only space is its last character, the word after its first occurrence is returned when the text before it ends in a space |
| GatewayResolver.LinuxNeighbourWord | NetworkShieldPro/modules/arp_detector.py:150-151 | `... lladdr <mac> ...` gives `<mac>` |
| Detector.RowsWithIp | NetworkShieldPro/modules/arp_detector.py:209 | a row is kept exactly when it is in the table and holds the ip |
| Detector.RowsWithIpAppend | NetworkShieldPro/modules/arp_detector.py:209 | the rows of two stretches of table are the rows of each, in table order |
| Detector.RowsWithIpOfRow | NetworkShieldPro/modules/arp_detector.py:209 | a single row is kept exactly when it holds the ip |
| Detector.TwoRowsAtIp | NetworkShieldPro/modules/arp_detector.py:209 | two different rows at one ip give at least two kept rows |
| Detector.MacsOf | NetworkShieldPro/modules/arp_detector.py:215 | the MACs of the gateway rows, in table order |
| Detector.CollectMacIps | NetworkShieldPro/modules/arp_detector.py:180-193 | the loop gives each counted MAC (lower-cased, neither broadcast nor multicast) its ips in table order, with keys in first-seen order |
| Detector.ReportMultipleIps | NetworkShieldPro/modules/arp_detector.py:195-204 | one `multiple_ips` finding per key with more than one ip, in key order |
| Detector.CollectInfo | NetworkShieldPro/modules/arp_detector.py:220-245 | one info finding per broadcast or multicast row, in table order |
| Detector.DetectArpSpoofing | NetworkShieldPro/modules/arp_detector.py:167-247 | the method computes exactly `Detect`: MAC findings, then the gateway finding, then info findings |
| Detector.MacOrderCounted | NetworkShieldPro/modules/arp_detector.py:186-193 | the keys are distinct and are never broadcast or multicast |
| Detector.KeyHasRow | NetworkShieldPro/modules/arp_detector.py:186-193 | every key is the lower-cased MAC of some row |
| Detector.RowKeyIsKey | NetworkShieldPro/modules/arp_detector.py:186-193 | the lower-cased MAC of every counted row is a key |
| Detector.MacOrderFirstSeen | NetworkShieldPro/modules/arp_detector.py:186-193 | keys come in order of first appearance: any row carrying a later key is preceded by a row carrying each earlier key |
| Detector.OrderIffIps | NetworkShieldPro/modules/arp_detector.py:193 | a counted MAC is a key exactly when some row carries it |
| Detector.MultipleIpsMembers | NetworkShieldPro/modules/arp_detector.py:196-204 | each MAC finding carries a key, all its ips and more than one of them; every such key is reported |
| Detector.MultipleIpsDistinct | NetworkShieldPro/modules/arp_detector.py:196-204 | no MAC is reported twice |
| Detector.MultipleIpsIff | NetworkShieldPro/modules/arp_detector.py:180-204 | a `multiple_ips` finding is present exactly for each counted MAC with two or more ips |
| Detector.InfoKinds | NetworkShieldPro/modules/arp_detector.py:221-241 | info findings are only broadcast or multicast, each from a row of the table, and every special row yields one |
| Detector.InfoIff | NetworkShieldPro/modules/arp_detector.py:220-245 | every broadcast or multicast row has its info finding in the result, and every info finding in the result comes from such a row |
| Detector.InfoFindingsAppend | NetworkShieldPro/modules/arp_detector.py:220-245 | the info findings of two stretches of table are those of each, in table order |
| Detector.InfoFindingsOfRow | NetworkShieldPro/modules/arp_detector.py:220-245 | a single row yields one info finding when it is broadcast or multicast and none otherwise |
| Detector.RepeatedSpecialRow | NetworkShieldPro/modules/arp_detector.py:220-245 | the same special row twice gives two findings |
| Detector.GatewayAlarmIff | NetworkShieldPro/modules/arp_detector.py:207-218 | a high finding is present exactly when the gateway is resolved and two or more rows hold its ip; it lists their MACs |
| Detector.DetectOrdered | NetworkShieldPro/modules/arp_detector.py:177-247 | findings are ordered by kind: MAC findings, then the gateway finding, then info findings |
| Detector.DetectEmpty | NetworkShieldPro/modules/arp_detector.py:177-247 | an empty table gives no findings |
| Detector.TwoRowsSameMac | NetworkShieldPro/modules/arp_detector.py:180-204 | two rows with one counted MAC are always reported |
| Detector.IpsOfTwo | NetworkShieldPro/modules/arp_detector.py:193 | two rows with the same key give that key at least two ips |
| Detector.IpsOfOne | NetworkShieldPro/modules/arp_detector.py:193 | a row's key has at least one ip |
| Detector.SpecialRowNoThreat | NetworkShieldPro/modules/arp_detector.py:185-191 | adding a broadcast or multicast row that is not at the gateway ip leaves the threat findings unchanged |
| Detector.KeysSameIps | NetworkShieldPro/modules/arp_detector.py:196-204 | the MAC findings depend only on the ips of each key |
| Detector.BroadcastRowAtGatewayIsHigh | NetworkShieldPro/modules/arp_detector.py:208-218 | a broadcast row at the gateway ip, which the MAC check skips, still raises the high alarm |
| Detector.GatewayPairIsHigh | NetworkShieldPro/modules/arp_detector.py:208-218 | two rows at the resolved gateway ip raise the high finding listing their two MACs |
| Detector.GatewayRowsRaiseAlarm | NetworkShieldPro/modules/arp_detector.py:208-218 | in any table, any two rows at the resolved gateway ip raise the high finding, and it lists both their MACs |
| Detector.DuplicateGatewayRowIsHigh | NetworkShieldPro/modules/arp_detector.py:209-218 | two identical rows at the gateway ip raise the high alarm, though only one MAC is involved |
| Detector.MulticastShape | NetworkShieldPro/modules/arp_detector.py:190 | a MAC counts as multicast exactly when it starts with one of the eight prefixes |
| Detector.GroupBitMacNotMulticast | NetworkShieldPro/modules/arp_detector.py:190 | `33:33:..` has its group bit set but is not treated as multicast |
| Scanner.WithInterval | NetworkShieldPro/modules/arp_detector.py:306-312 | saving an interval makes it the stored interval; no interval leaves the store alone |
| Scanner.ThreatLevelOf | NetworkShieldPro/modules/arp_detector.py:411-419 | "high" exactly when some finding is high, "medium" exactly when some is medium and none is high, otherwise "none" |
| Scanner.KeepLast | NetworkShieldPro/modules/arp_detector.py:433-434 | the history keeps at most 100 entries, which are its newest ones |
| Scanner.RunScan | NetworkShieldPro/modules/arp_detector.py:400-429 | a scan yields the table, the gateway, the findings, their level and the times |
| Scanner.ArpScanner.constructor | NetworkShieldPro/modules/arp_detector.py:250-279 | nothing is running; the history is empty; the interval is the stored one, or 24 |
| Scanner.ArpScanner.StartScan | NetworkShieldPro/modules/arp_detector.py:281-297 | refused while a scan is marked running; otherwise marks running, clears the stop signal and starts one scan thread |
| Scanner.ArpScanner.StopPeriodicScan | NetworkShieldPro/modules/arp_detector.py:340-369 | false when no periodic scan runs; otherwise clears the flag, raises the stop signal and stores "inactive" |
| Scanner.ArpScanner.StartPeriodicScan | NetworkShieldPro/modules/arp_detector.py:299-338 | always true; stores a given interval; starts a loop unless one runs with the same interval; a changed interval restarts the loop |
| Scanner.RestartSettings | NetworkShieldPro/modules/arp_detector.py:302-330 | stopping before a restart leaves the same stored settings as a plain start with the new interval |
| Scanner.ArpScanner.Stop | NetworkShieldPro/modules/arp_detector.py:371-392 | stops the periodic scan and marks the one-shot scan stopped; started threads are not cancelled |
| Scanner.ArpScanner.ScanStep | NetworkShieldPro/modules/arp_detector.py:394-446 | a started scan thread records its result, keeps the last 100, delivers it to a callback if there is one, and clears `running` |
| Scanner.ArpScanner.Finish | NetworkShieldPro/modules/arp_detector.py:431-446 | append and trim the history, call the callback, clear `running` |
| Scanner.ArpScanner.PeriodicLoopCheck | NetworkShieldPro/modules/arp_detector.py:448-474 | the loop goes on exactly while the flag is set and the signal is clear, starting a scan when none runs; on exit it clears the flag |
| Scanner.ArpScanner.WaitPoll | NetworkShieldPro/modules/arp_detector.py:463-466 | the wait ends early exactly when the signal is raised or the flag is clear |
| Scanner.ArpScanner.GetLastScanResult | NetworkShieldPro/modules/arp_detector.py:476-480 | the newest history entry, or none when the history is empty |
| Scanner.ArpScanner.GetScanHistory | NetworkShieldPro/modules/arp_detector.py:482-484 | the whole history |
| Scanner.KeepLastAppend | NetworkShieldPro/modules/arp_detector.py:432-434 | trimming before an append changes nothing once the append is trimmed |
| Scanner.ReplayKeepsLast | NetworkShieldPro/modules/arp_detector.py:432-434 | recording scans one at a time keeps the last 100 of all results, in order |
| Scanner.ReplayLastHundred | NetworkShieldPro/modules/arp_detector.py:432-434 | after 100 or more scans the history is exactly the last 100 |
| Scanner.ScanLevel | NetworkShieldPro/modules/arp_detector.py:411-419 | a scan is "high" exactly when the gateway alarm fires; it is "none" exactly when, in addition, no counted MAC has two ips |
| Scanner.IntervalChangeKeepsOldLoop | NetworkShieldPro/modules/arp_detector.py:302-338 | when the old loop does not poll during the 2 s join, changing the interval of a running periodic scan leaves two loops alive; the old one does not leave its wait and goes on |
| Scanner.StopKeepsStartedScan | NetworkShieldPro/modules/arp_detector.py:371-392 | after `stop`, a new scan can start while the old thread is pending, and the old result is still recorded |
| Scanner.SecondStartRefused | NetworkShieldPro/modules/arp_detector.py:283-285 | a second `start_scan` while one runs is refused |
| Colors.StatusKeysAreColors | NetworkShieldPro/ui/colors.py:130-141 | every status word maps to a colour key of `THEME` |
| Colors.StatusColor | NetworkShieldPro/ui/colors.py:120-143 | the colour of the lower-cased word, or the primary text colour for an unknown word |
| Colors.StatusColorIgnoresCase | NetworkShieldPro/ui/colors.py:143 | the lookup does not depend on letter case |
| Colors.LevelColors | NetworkShieldPro/ui/colors.py:130-143 | the detector's levels map to amber, red and grey |
| Colors.UnknownStatusColor | NetworkShieldPro/ui/colors.py:143 | a word outside the table, such as "critical", falls back to white |
| Colors.DarkIsTheme | NetworkShieldPro/ui/colors.py:64-66 | `THEMES["dark"]` is `THEME` |
| Colors.ThemesSameKeys | NetworkShieldPro/ui/colors.py:10-118 | both themes define the same keys |
| Colors.ThemesShareStatus | NetworkShieldPro/ui/colors.py:10-118 | the success, warning, error and info colours are equal in both themes |
| Colors.ThemesShareAccent | NetworkShieldPro/ui/colors.py:10-118 | the primary colour and its hover and active shades are equal in both themes |
| Colors.ThemesShareNetwork | NetworkShieldPro/ui/colors.py:10-118 | the secure, warning and danger network colours are equal in both themes; the unknown-network colour differs |
| Colors.ThemesShareMetrics | NetworkShieldPro/ui/colors.py:10-118 | the radii and animation lengths are equal in both themes |
| Helpers.SliceEnd | NetworkShieldPro/ui/helpers.py:42 | Python slice-end semantics, negative ends counting from the back |
| Helpers.TruncateText | NetworkShieldPro/ui/helpers.py:38-42 | a short text is unchanged; a long one becomes a prefix of itself followed by `...` |
| Helpers.TruncateTextDefault | NetworkShieldPro/ui/helpers.py:38-42 | with the default limit of 30 the result is at most 30 long; a fitting text is kept; a longer one keeps its first 27 characters and is exactly 30 long |
| Helpers.TruncateFits | NetworkShieldPro/ui/helpers.py:38-42 | with a limit of at least 3, a truncated text is exactly the limit long |
| Helpers.TruncateSmallLimitOverflows | NetworkShieldPro/ui/helpers.py:42 | with a limit below 3, a truncated text is longer than the limit |
| Helpers.FormatMacForDisplay | NetworkShieldPro/ui/helpers.py:44-58 | `Bilinmiyor` for the empty text; otherwise the normalized form exactly when it splits into six colon-separated groups, else the argument |
| Helpers.NormalizedMacShape | NetworkShieldPro/ui/helpers.py:50 | the normalized form has no upper-case letter, no hyphen and no surrounding whitespace |
| Helpers.NormalFormFixed | NetworkShieldPro/ui/helpers.py:50 | a text with no upper-case letter, no hyphen and no surrounding whitespace is already normalized |
| Helpers.NormalizedMacFixed | NetworkShieldPro/ui/helpers.py:50 | normalizing twice is normalizing once |
| Helpers.UnseparatedShownAsIs | NetworkShieldPro/ui/helpers.py:44-58 | a non-empty text with neither colon nor hyphen is shown unchanged |
| Helpers.UnknownMacShownAsIs | NetworkShieldPro/ui/helpers.py:44-58 | the sentinel `Bilinmiyor` is shown unchanged |
| Helpers.RewrittenMacShownAsIs | NetworkShieldPro/ui/helpers.py:44-58 | a MAC that display rewrote is shown unchanged the second time |
| Helpers.MacDisplayIdempotent | NetworkShieldPro/ui/helpers.py:44-58 | showing a shown MAC again changes nothing, for every input |
| Helpers.PackedMacText | NetworkShieldPro/ui/helpers.py:44-58 | the text of six packed bytes has six colon-separated groups, no upper-case letter, no hyphen and no surrounding whitespace |
| Helpers.MacDisplayOfPacked | NetworkShieldPro/ui/helpers.py:44-58 | a six-byte MAC from `format_mac` is shown unchanged |
| Helpers.FormatIpForDisplay | NetworkShieldPro/ui/helpers.py:60-76 | `Bilinmiyor` for an empty or unresolved ip; every other text is returned unchanged |
| Helpers.IpDisplayOfPacked | NetworkShieldPro/ui/helpers.py:60-76 | an address from `format_ip` is shown unchanged |
| Helpers.ThreatLevelToText | NetworkShieldPro/ui/helpers.py:78-87 | the Turkish name of each of the three levels, `Bilinmiyor` otherwise |
| Helpers.ScanLevelsHaveText | NetworkShieldPro/ui/helpers.py:78-87 | every level a scan can have has a name; "low" has a status colour but no name |
| Helpers.EntryViews | NetworkShieldPro/ui/helpers.py:124-125 | the dictionaries of the findings, one per finding, in order |
| Helpers.FirstUncounted | NetworkShieldPro/ui/helpers.py:97-99 | the first level the count table has no key for |
| Helpers.TallyLevels | NetworkShieldPro/ui/helpers.py:95-99 | the loop fails exactly when some level has no key, reporting the first such level (`KeyError`); otherwise it returns the table `TallyOf` defines |
| Helpers.TallyOf | NetworkShieldPro/ui/helpers.py:95-99 | the table has exactly the four level keys, each holding the number of results of that level |
| Helpers.CreateThreatDataChart | NetworkShieldPro/ui/helpers.py:89-108 | the chart `ThreatDataChart` defines: nothing for no results, three bars, or the failing level |
| Helpers.ThreatChartCounts | NetworkShieldPro/ui/helpers.py:89-108 | the chart fails exactly when some level is outside the table; otherwise the three bars and the unknown results count every result once |
| Helpers.ScannerResultsChart | NetworkShieldPro/ui/helpers.py:89-108 | results the scanner produced never make the chart fail |
| Helpers.ScanHistoryChart | NetworkShieldPro/ui/helpers.py:110-130 | one bar per scan among the last five |
| Helpers.Reversed | NetworkShieldPro/ui/helpers.py:117 | `list.reverse` |
| Helpers.CreateScanHistoryChart | NetworkShieldPro/ui/helpers.py:110-130 | the loop builds the chart `ScanHistoryChart` defines |
| Helpers.HistoryChartOrder | NetworkShieldPro/ui/helpers.py:116-128 | bar "1" is the newest scan and the last bar the oldest shown, each valued by its high findings |
| Helpers.ScannerBarAtMostOne | NetworkShieldPro/ui/helpers.py:124-125 | a scan produced by the detector has at most one high finding, so each bar is 0 or 1 |
| Helpers.NetworkSecurityScore | NetworkShieldPro/ui/helpers.py:132-171 | a score between 0 and 100; 0 for a missing or empty result |
| Helpers.ScoreAntitone | NetworkShieldPro/ui/helpers.py:150-169 | one more real threat never raises the score |
| Helpers.CleanScanScore | NetworkShieldPro/ui/helpers.py:137-169 | a clean scan with a resolved gateway scores 100 less 5 per real threat, up to 40 |
| Helpers.HighScanScore | NetworkShieldPro/ui/helpers.py:137-169 | a scan rated high scores at most 15 |

## Left out

- Running commands, logging, sleeping and reading the clock are not modelled. Command output and times are parameters.
- Scanner.IntervalChangeKeepsOldLoop: the restart is one atomic step, so the interleaving in which the old loop polls inside the 2 s `join` of `stop_periodic_scan`, sees the stop signal and ends (leaving one loop) is not represented; the lemma covers only the interleaving in which it does not.
- Threads are not scheduled. Each thread body is a step method that the caller runs: `ScanStep`, `PeriodicLoopCheck` and `WaitPoll`.
  - `join` with a timeout only waits, so it is not modelled.
  - Calling the interval-length wait loop is left to the caller. One iteration of it is `WaitPoll`.
  - Races between the threads on the shared flags are not modelled.
- Exceptions from the settings store (`get_setting`, `set_setting`) are not modelled, and writes always succeed. A stored interval that is not a number is read as the default.
- An exception raised by the callback is not modelled. In the source it arrives after the history is recorded and is logged, so the recorded state is the same.
- Text handling is simplified:
  - `lower()`, `\d`, `\w` and `isspace` are ASCII or Python-whitespace approximations, with no Unicode case folding or digits.
  - `splitlines()` is modelled as `split('\n')`.
  - The Windows regular expression is modelled token by token on `split()` fields. Separators are runs of whitespace, as `\s+` matches them.
- Helpers.FormatIpForDisplay: the octet check with `int(p)` is modelled on digit strings only. This has no effect on the result, because both branches return the argument.
- Detector.Message: the message texts are modelled as strings, but no property is proved about them.
- Helpers.ResultView: the dictionaries are modelled with the keys the helpers read. Values of other types than the scanner writes (a non-string level, a non-list of findings) are not modelled.
- `format_timestamp` and `format_time_ago` (date formatting from the clock) are not part of this model.
- Helpers.NetworkSecurityScore: `round` of an integer is the integer, so it is not written out.

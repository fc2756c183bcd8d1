/**
 * The colour and style tables (`THEME`, `THEMES`) and `get_status_color`,
 * which maps a status or threat-level word to a colour of the dark theme.
 */
module Colors {
  import opened PyText
  import Detector

  /** A theme entry: a colour or CSS text, or a number (radius in pixels,
      animation length in milliseconds). */
  datatype ThemeValue = Str(text: string) | Num(n: int)

  /** The dark theme, which is also `THEME`. */
  const Theme: map<string, ThemeValue> := map[
    "background" := Str("#121212"),
    "card_background" := Str("#181818"),
    "sidebar_background" := Str("#000000"),
    "primary" := Str("#1DB954"),
    "secondary" := Str("#535353"),
    "tertiary" := Str("#B3B3B3"),
    "success" := Str("#1DB954"),
    "warning" := Str("#F9A825"),
    "error" := Str("#E53935"),
    "info" := Str("#2196F3"),
    "text_primary" := Str("#FFFFFF"),
    "text_secondary" := Str("#B3B3B3"),
    "text_tertiary" := Str("#6F6F6F"),
    "text_disabled" := Str("#535353"),
    "hover_primary" := Str("#1ED760"),
    "active_primary" := Str("#169C46"),
    "hover_secondary" := Str("#636363"),
    "active_secondary" := Str("#434343"),
    "border" := Str("#333333"),
    "radius_small" := Num(4),
    "radius_medium" := Num(8),
    "radius_large" := Num(16),
    "animation_fast" := Num(150),
    "animation_medium" := Num(300),
    "animation_slow" := Num(600),
    "shadow" := Str("0 4px 8px rgba(0, 0, 0, 0.3)"),
    "shadow_large" := Str("0 8px 16px rgba(0, 0, 0, 0.5)"),
    "network_secure" := Str("#1DB954"),
    "network_warning" := Str("#F9A825"),
    "network_danger" := Str("#E53935"),
    "network_unknown" := Str("#757575")
  ]

  const LightTheme: map<string, ThemeValue> := map[
    "background" := Str("#FFFFFF"),
    "card_background" := Str("#F5F5F5"),
    "sidebar_background" := Str("#EEEEEE"),
    "primary" := Str("#1DB954"),
    "secondary" := Str("#BDBDBD"),
    "tertiary" := Str("#757575"),
    "success" := Str("#1DB954"),
    "warning" := Str("#F9A825"),
    "error" := Str("#E53935"),
    "info" := Str("#2196F3"),
    "text_primary" := Str("#212121"),
    "text_secondary" := Str("#616161"),
    "text_tertiary" := Str("#9E9E9E"),
    "text_disabled" := Str("#BDBDBD"),
    "hover_primary" := Str("#1ED760"),
    "active_primary" := Str("#169C46"),
    "hover_secondary" := Str("#D5D5D5"),
    "active_secondary" := Str("#C2C2C2"),
    "border" := Str("#E0E0E0"),
    "radius_small" := Num(4),
    "radius_medium" := Num(8),
    "radius_large" := Num(16),
    "animation_fast" := Num(150),
    "animation_medium" := Num(300),
    "animation_slow" := Num(600),
    "shadow" := Str("0 2px 4px rgba(0, 0, 0, 0.1)"),
    "shadow_large" := Str("0 4px 8px rgba(0, 0, 0, 0.2)"),
    "network_secure" := Str("#1DB954"),
    "network_warning" := Str("#F9A825"),
    "network_danger" := Str("#E53935"),
    "network_unknown" := Str("#9E9E9E")
  ]

  const Themes: map<string, map<string, ThemeValue>> := map["dark" := Theme, "light" := LightTheme]

  /** `THEME[key]` for a key that holds a colour. */
  function ThemeColor(key: string): string
    requires key in Theme && Theme[key].Str?
  {
    Theme[key].text
  }

  /** The words `get_status_color` knows, each with the `THEME` key of its
      colour. */
  const StatusKeys: map<string, string> := map[
    "success" := "success",
    "warning" := "warning",
    "error" := "error",
    "info" := "info",
    "none" := "text_secondary",
    "high" := "error",
    "medium" := "warning",
    "low" := "info",
    "secure" := "success",
    "unknown" := "text_tertiary"
  ]

  /** Every word in the status table names a colour of the dark theme. */
  lemma StatusKeysAreColors()
    ensures forall w :: w in StatusKeys ==> StatusKeys[w] in Theme && Theme[StatusKeys[w]].Str?
  {
  }

  /** `get_status_color`: the colour of the lower-cased word, or the primary
      text colour for a word the table does not know. */
  function StatusColor(status: string): (color: string)
    ensures Lower(status) !in StatusKeys ==> color == ThemeColor("text_primary")
    ensures Lower(status) in StatusKeys ==> color == ThemeColor(StatusKeys[Lower(status)])
  {
    StatusKeysAreColors();
    var word := Lower(status);
    if word in StatusKeys then ThemeColor(StatusKeys[word]) else ThemeColor("text_primary")
  }

  /** The lookup ignores letter case. */
  lemma StatusColorIgnoresCase(status: string)
    ensures StatusColor(status) == StatusColor(Lower(status))
  {
    var word := Lower(status);
    assert NoUpper(word);
    LowerFixesLowerCase(word);
  }

  /** The detector's three levels get the error, warning and secondary-text
      colours; a word outside the table falls back to white. */
  lemma LevelColors(f: Detector.Finding)
    ensures StatusColor(Detector.Level(f)) ==
              match f
              case MultipleIps(_, _) => "#F9A825"
              case GatewayMultipleMacs(_, _) => "#E53935"
              case _ => "#B3B3B3"
  {
    var level := Detector.Level(f);
    assert NoUpper(level);
    LowerFixesLowerCase(level);
  }

  /** A word outside the table, such as "critical", falls back to white. */
  lemma UnknownStatusColor()
    ensures StatusColor("critical") == "#FFFFFF"
  {
    assert NoUpper("critical");
    LowerFixesLowerCase("critical");
  }

  /** The dark theme is `THEME` itself. */
  lemma DarkIsTheme()
    ensures "dark" in Themes && Themes["dark"] == Theme
    ensures "light" in Themes && Themes["light"] == LightTheme
  {
  }

  /** Both themes define the same keys. */
  lemma ThemesSameKeys()
    ensures Theme.Keys == LightTheme.Keys
  {
  }

  /** The status colours are shared. */
  lemma ThemesShareStatus()
    ensures forall i :: 0 <= i < |SharedStatusColors| ==>
              SharedStatusColors[i] in Theme && SharedStatusColors[i] in LightTheme
              && Theme[SharedStatusColors[i]] == LightTheme[SharedStatusColors[i]]
  {
  }

  /** The accent colour and its hover and active shades are shared. */
  lemma ThemesShareAccent()
    ensures forall i :: 0 <= i < |SharedAccentColors| ==>
              SharedAccentColors[i] in Theme && SharedAccentColors[i] in LightTheme
              && Theme[SharedAccentColors[i]] == LightTheme[SharedAccentColors[i]]
  {
  }

  /** The secure, warning and danger network colours are shared; only the
      unknown-network grey differs. */
  lemma ThemesShareNetwork()
    ensures forall i :: 0 <= i < |SharedNetworkColors| ==>
              SharedNetworkColors[i] in Theme && SharedNetworkColors[i] in LightTheme
              && Theme[SharedNetworkColors[i]] == LightTheme[SharedNetworkColors[i]]
    ensures Theme["network_unknown"] != LightTheme["network_unknown"]
  {
  }

  /** The radii and animation lengths are shared. */
  lemma ThemesShareMetrics()
    ensures forall i :: 0 <= i < |SharedMetrics| ==>
              SharedMetrics[i] in Theme && SharedMetrics[i] in LightTheme
              && Theme[SharedMetrics[i]] == LightTheme[SharedMetrics[i]]
  {
  }

  const SharedStatusColors: seq<string> := ["success", "warning", "error", "info"]

  const SharedAccentColors: seq<string> := ["primary", "hover_primary", "active_primary"]

  const SharedNetworkColors: seq<string> := ["network_secure", "network_warning", "network_danger"]

  const SharedMetrics: seq<string> := [
    "radius_small", "radius_medium", "radius_large",
    "animation_fast", "animation_medium", "animation_slow"
  ]
}

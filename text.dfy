/**
 * The few Python `str` operations the detector and the display helpers rely on,
 * written out over `seq<char>`: `split()` on whitespace, `split(sep)`, `join`,
 * `strip()`, `lower()`, `replace`, `startswith`, the `in` substring test and
 * decimal rendering of a non-negative `int`.
 */
module PyText {
  import opened Wrappers

  /** The characters for which Python's `str.isspace()` holds (and which `\s`,
      `split()` and `strip()` treat as whitespace). */
  predicate IsSpace(c: char) {
    c == ' ' || ('\t' <= c <= '\r') || ('\U{1c}' <= c <= '\U{1f}')
    || c == '\U{85}' || c == '\U{a0}' || c == '\U{1680}'
    || ('\U{2000}' <= c <= '\U{200a}') || c == '\U{2028}' || c == '\U{2029}'
    || c == '\U{202f}' || c == '\U{205f}' || c == '\U{3000}'
  }

  predicate IsDigit(c: char) { '0' <= c <= '9' }

  /** ASCII approximation of the regular-expression class `\w`. */
  predicate IsWordChar(c: char) {
    IsDigit(c) || ('a' <= c <= 'z') || ('A' <= c <= 'Z') || c == '_'
  }

  predicate IsUpper(c: char) { 'A' <= c <= 'Z' }

  function LowerChar(c: char): (r: char)
    ensures !IsUpper(r)
    ensures !IsUpper(c) ==> r == c
  {
    if IsUpper(c) then (c as int + 32) as char else c
  }

  /** `s.lower()`, restricted to the ASCII letters. */
  function Lower(s: string): (r: string)
    ensures |r| == |s|
    ensures forall i :: 0 <= i < |s| ==> r[i] == LowerChar(s[i])
  {
    seq(|s|, i requires 0 <= i < |s| => LowerChar(s[i]))
  }

  predicate NoUpper(s: string) { forall i :: 0 <= i < |s| ==> !IsUpper(s[i]) }

  lemma LowerFixesLowerCase(s: string)
    requires NoUpper(s)
    ensures Lower(s) == s
  {
  }

  /** `s.replace(a, b)` for one-character `a` and `b`. */
  function ReplaceChar(s: string, a: char, b: char): (r: string)
    ensures |r| == |s|
    ensures forall i :: 0 <= i < |s| ==> r[i] == (if s[i] == a then b else s[i])
  {
    seq(|s|, i requires 0 <= i < |s| => if s[i] == a then b else s[i])
  }

  function StripLeft(s: string): (r: string)
    ensures |r| <= |s| && r == s[|s| - |r|..]
    ensures r == [] || !IsSpace(r[0])
  {
    if s != [] && IsSpace(s[0]) then StripLeft(s[1..]) else s
  }

  function StripRight(s: string): (r: string)
    ensures |r| <= |s| && r == s[..|r|]
    ensures r == [] || !IsSpace(r[|r| - 1])
  {
    if s != [] && IsSpace(s[|s| - 1]) then StripRight(s[..|s| - 1]) else s
  }

  /** `StripRight` never removes a non-whitespace first character. */
  lemma {:induction false} StripRightKeepsStart(s: string)
    requires s != [] && !IsSpace(s[0])
    ensures StripRight(s) != []
    decreases |s|
  {
    if IsSpace(s[|s| - 1]) {
      StripRightKeepsStart(s[..|s| - 1]);
    }
  }

  /** `s.strip()`: leading and trailing whitespace removed. */
  function Strip(s: string): (r: string) {
    StripRight(StripLeft(s))
  }

  /** Neither end of what `Strip` returns is whitespace. */
  lemma StripEnds(s: string)
    ensures Strip(s) == [] || (!IsSpace(Strip(s)[0]) && !IsSpace(Strip(s)[|Strip(s)| - 1]))
  {
    var l := StripLeft(s);
    var r := StripRight(l);
    if r != [] {
      assert r[0] == l[0];
    }
  }

  /** Stripping a string whose ends are not whitespace changes nothing. */
  lemma StripFixesTrimmed(s: string)
    requires s == [] || (!IsSpace(s[0]) && !IsSpace(s[|s| - 1]))
    ensures Strip(s) == s
  {
  }

  /** `Strip` keeps a run of the original characters. */
  lemma StripKeepsChars(s: string)
    ensures forall c :: c in Strip(s) ==> c in s
  {
    var l := StripLeft(s);
    var r := StripRight(l);
    forall c | c in r ensures c in s {
      var i :| 0 <= i < |r| && r[i] == c;
      assert r[i] == l[i];
      assert l[i] == s[|s| - |l| + i];
    }
  }

  /** Length of the run of non-whitespace characters that starts `s`. */
  function TokenLength(s: string): (n: nat)
    ensures n <= |s|
    ensures forall i :: 0 <= i < n ==> !IsSpace(s[i])
    ensures n == |s| || IsSpace(s[n])
  {
    if s == [] || IsSpace(s[0]) then 0 else 1 + TokenLength(s[1..])
  }

  /** `s.split()`: the maximal runs of non-whitespace characters, in order. */
  function Fields(s: string): (r: seq<string>)
    decreases |s|
  {
    if s == [] then []
    else if IsSpace(s[0]) then Fields(s[1..])
    else
      var n := TokenLength(s);
      [s[..n]] + Fields(s[n..])
  }

  predicate IsField(t: string) {
    t != [] && forall i :: 0 <= i < |t| ==> !IsSpace(t[i])
  }

  /** Every piece `split()` returns is non-empty and free of whitespace. */
  lemma {:induction false} FieldsAreTokens(s: string)
    ensures forall t :: t in Fields(s) ==> IsField(t)
    decreases |s|
  {
    if s == [] {
    } else if IsSpace(s[0]) {
      FieldsAreTokens(s[1..]);
    } else {
      var n := TokenLength(s);
      FieldsAreTokens(s[n..]);
    }
  }

  /** A string with no whitespace in it splits into itself alone. */
  lemma {:induction false} FieldsOfToken(t: string)
    requires IsField(t)
    ensures Fields(t) == [t]
  {
    assert TokenLength(t) == |t| by { TokenLengthOfToken(t); }
    assert t[..|t|] == t;
    assert t[|t|..] == [];
  }

  lemma {:induction false} TokenLengthOfToken(t: string)
    requires forall i :: 0 <= i < |t| ==> !IsSpace(t[i])
    ensures TokenLength(t) == |t|
    decreases |t|
  {
    if t != [] {
      TokenLengthOfToken(t[1..]);
    }
  }

  /** Splitting on whitespace undoes joining whitespace-free tokens with spaces. */
  lemma {:induction false} FieldsOfJoin(tokens: seq<string>)
    requires forall i :: 0 <= i < |tokens| ==> IsField(tokens[i])
    ensures Fields(Join(tokens, " ")) == tokens
    decreases |tokens|
  {
    if |tokens| == 1 {
      FieldsOfToken(tokens[0]);
    } else if |tokens| > 1 {
      var t := tokens[0];
      var rest := Join(tokens[1..], " ");
      var s := Join(tokens, " ");
      assert s == t + " " + rest;
      assert TokenLength(s) == |t| by {
        TokenLengthOfToken(t);
        TokenLengthPrefix(s, t);
      }
      assert s[..|t|] == t;
      assert s[|t|..] == " " + rest;
      assert (" " + rest)[1..] == rest;
      FieldsOfJoin(tokens[1..]);
      assert tokens == [t] + tokens[1..];
    }
  }

  lemma {:induction false} TokenLengthPrefix(s: string, t: string)
    requires forall i :: 0 <= i < |t| ==> !IsSpace(t[i])
    requires |t| < |s| && s[..|t|] == t && IsSpace(s[|t|])
    ensures TokenLength(s) == |t|
    decreases |t|
  {
    if t != [] {
      assert s[0] == t[0];
      TokenLengthPrefix(s[1..], t[1..]);
    }
  }

  predicate StartsWith(s: string, prefix: string) {
    |prefix| <= |s| && s[..|prefix|] == prefix
  }

  predicate OccursAt(s: string, sub: string, k: nat) {
    k + |sub| <= |s| && s[k..k + |sub|] == sub
  }

  /** `s.find(sub)`: the first position at which `sub` occurs in `s`. */
  function IndexOf(s: string, sub: string): (r: Option<nat>)
    ensures r.Some? ==> OccursAt(s, sub, r.value)
    ensures r.Some? ==> forall j :: 0 <= j < r.value ==> !OccursAt(s, sub, j)
    ensures r.None? ==> forall j :: 0 <= j ==> !OccursAt(s, sub, j)
    decreases |s|
  {
    if |s| < |sub| then None
    else if s[..|sub|] == sub then Some(0)
    else
      OccursShift(s, sub);
      match IndexOf(s[1..], sub)
      case None => None
      case Some(k) => Some(k + 1)
  }

  lemma OccursShift(s: string, sub: string)
    requires s != []
    ensures forall j: nat :: 1 <= j ==> (OccursAt(s, sub, j) <==> OccursAt(s[1..], sub, j - 1))
  {
    forall j: nat | 1 <= j ensures OccursAt(s, sub, j) <==> OccursAt(s[1..], sub, j - 1) {
      if j + |sub| <= |s| {
        assert s[j..j + |sub|] == s[1..][j - 1..j - 1 + |sub|];
      }
    }
  }

  /** Python's `sub in s`. */
  predicate Contains(s: string, sub: string) {
    IndexOf(s, sub).Some?
  }

  /** `s.split(sep)` for a non-empty separator. */
  function Split(s: string, sep: string): (r: seq<string>)
    requires sep != []
    ensures |r| >= 1
    decreases |s|
  {
    match IndexOf(s, sep)
    case None => [s]
    case Some(k) => [s[..k]] + Split(s[k + |sep|..], sep)
  }

  /** `text.split('\n')`. */
  function Lines(text: string): (r: seq<string>)
    ensures |r| >= 1
  {
    Split(text, "\n")
  }

  /** `sep.join(parts)`. */
  function Join(parts: seq<string>, sep: string): string {
    if parts == [] then []
    else if |parts| == 1 then parts[0]
    else parts[0] + sep + Join(parts[1..], sep)
  }

  /** Joining what `split` cut gives back the original string. */
  lemma {:induction false} JoinSplit(s: string, sep: string)
    requires sep != []
    ensures Join(Split(s, sep), sep) == s
    decreases |s|
  {
    match IndexOf(s, sep)
    case None =>
    case Some(k) =>
      var rest := s[k + |sep|..];
      var tail := Split(rest, sep);
      JoinSplit(rest, sep);
      var parts := [s[..k]] + tail;
      assert Split(s, sep) == parts;
      assert parts[1..] == tail;
      assert Join(parts, sep) == s[..k] + sep + Join(tail, sep);
      assert s == s[..k] + s[k..k + |sep|] + rest;
  }

  function CountChar(s: string, c: char): nat {
    if s == [] then 0 else (if s[0] == c then 1 else 0) + CountChar(s[1..], c)
  }

  lemma {:induction false} CountCharSplit(s: string, c: char, k: nat)
    requires k < |s|
    ensures CountChar(s, c) == CountChar(s[..k], c) + CountChar(s[k..], c)
    decreases k
  {
    if k > 0 {
      CountCharSplit(s[1..], c, k - 1);
      assert s[1..][..k - 1] == s[..k][1..];
      assert s[1..][k - 1..] == s[k..];
    }
  }

  lemma {:induction false} NoOccurrenceNoCount(s: string, c: char)
    requires forall j :: 0 <= j ==> !OccursAt(s, [c], j)
    ensures CountChar(s, c) == 0
    decreases |s|
  {
    if s != [] {
      assert s[0] != c by { assert !OccursAt(s, [c], 0); }
      forall j | 0 <= j ensures !OccursAt(s[1..], [c], j) {
        assert !OccursAt(s, [c], j + 1);
        if j + 1 <= |s[1..]| {
          assert s[1..][j..j + 1] == s[j + 1..j + 2];
        }
      }
      NoOccurrenceNoCount(s[1..], c);
    }
  }

  /** Splitting on one character yields one more piece than there are
      occurrences of that character. */
  lemma {:induction false} SplitCharCount(s: string, c: char)
    ensures |Split(s, [c])| == CountChar(s, c) + 1
    decreases |s|
  {
    match IndexOf(s, [c])
    case None =>
      NoOccurrenceNoCount(s, c);
    case Some(k) =>
      var rest := s[k + 1..];
      SplitCharCount(rest, c);
      NoOccurrenceNoCount(s[..k], c) by {
        forall j | 0 <= j ensures !OccursAt(s[..k], [c], j) {
          if j + 1 <= k {
            assert s[..k][j..j + 1] == s[j..j + 1];
            assert !OccursAt(s, [c], j);
          }
        }
      }
      CountCharSplit(s, c, k);
      assert s[k..][0] == c && s[k..][1..] == rest;
  }

  /** Splitting on one character undoes `join` when no piece holds that
      character. */
  lemma {:induction false} SplitJoin(parts: seq<string>, c: char)
    requires |parts| >= 1
    requires forall p :: p in parts ==> c !in p
    ensures Split(Join(parts, [c]), [c]) == parts
    decreases |parts|
  {
    var s := Join(parts, [c]);
    var p := parts[0];
    assert p in parts;
    if |parts| == 1 {
      NoCharNoIndex(p, c);
      assert parts == [p];
    } else {
      var rest := Join(parts[1..], [c]);
      assert s == p + [c] + rest;
      NoCharNoIndex(p, c);
      assert IndexOf(s, [c]) == Some(|p|) by {
        assert OccursAt(s, [c], |p|);
        forall j | 0 <= j < |p| ensures !OccursAt(s, [c], j) {
          assert s[j] == p[j];
        }
        FirstOccurrence(s, [c], |p|);
      }
      assert s[|p| + 1..] == rest;
      assert forall q :: q in parts[1..] ==> q in parts;
      SplitJoin(parts[1..], c);
      assert s[..|p|] == p;
      assert parts == [p] + parts[1..];
    }
  }

  lemma NoCharNoIndex(p: string, c: char)
    requires c !in p
    ensures IndexOf(p, [c]) == None
  {
    forall j | 0 <= j ensures !OccursAt(p, [c], j) {
      if j + 1 <= |p| {
        assert p[j..j + 1] == [p[j]];
      }
    }
  }

  /** An occurrence with none before it is the one `IndexOf` finds. */
  lemma FirstOccurrence(s: string, sub: string, k: nat)
    requires OccursAt(s, sub, k)
    requires forall j :: 0 <= j < k ==> !OccursAt(s, sub, j)
    ensures IndexOf(s, sub) == Some(k)
  {
    var r := IndexOf(s, sub);
    assert r.Some?;
  }

  function DigitChar(d: int): (c: char)
    requires 0 <= d < 10
    ensures IsDigit(c)
  {
    ('0' as int + d) as char
  }

  /** `str(n)` for a non-negative integer. */
  function Decimal(n: nat): (r: string)
    ensures r != [] && forall i :: 0 <= i < |r| ==> IsDigit(r[i])
    ensures |r| > 1 ==> r[0] != '0'
  {
    if n < 10 then [DigitChar(n)] else Decimal(n / 10) + [DigitChar(n % 10)]
  }

  /** The value of a string of decimal digits. */
  function DecimalValue(s: string): nat
    requires forall i :: 0 <= i < |s| ==> IsDigit(s[i])
  {
    if s == [] then 0
    else
      var last := s[|s| - 1];
      assert IsDigit(last);
      10 * DecimalValue(s[..|s| - 1]) + (last as int - '0' as int)
  }

  /** Reading back what `Decimal` wrote gives the same number. */
  lemma {:induction false} DecimalRoundTrip(n: nat)
    ensures DecimalValue(Decimal(n)) == n
  {
    if n >= 10 {
      DecimalRoundTrip(n / 10);
      var s := Decimal(n);
      assert s[..|s| - 1] == Decimal(n / 10);
    }
  }
}

// The parts of Rust's `str` API the backend relies on, over `seq<char>`.
// Whitespace, punctuation and case are the ASCII subsets of Rust's
// Unicode definitions.
module Strings {
  import opened Base

  /** `char::is_whitespace` restricted to ASCII: tab, LF, VT, FF, CR, space. */
  predicate IsWhitespace(c: char) {
    c == ' ' || c == '\t' || c == '\n' || c == '\U{000B}' || c == '\U{000C}' || c == '\r'
  }

  predicate NoWhitespace(s: string) {
    forall i :: 0 <= i < |s| ==> !IsWhitespace(s[i])
  }

  predicate AllWhitespace(s: string) {
    forall i :: 0 <= i < |s| ==> IsWhitespace(s[i])
  }

  /** `char::is_ascii_punctuation`. */
  predicate IsAsciiPunctuation(c: char) {
    ('!' <= c <= '/') || (':' <= c <= '@') || ('[' <= c <= '`') || ('{' <= c <= '~')
  }

  predicate StartsWith(s: string, prefix: string) {
    |prefix| <= |s| && s[..|prefix|] == prefix
  }

  /** `str::trim_start`. */
  function TrimStart(s: string): (r: string)
    ensures |r| <= |s| && r == s[|s| - |r|..]
    ensures AllWhitespace(s[..|s| - |r|])
    ensures r == [] || !IsWhitespace(r[0])
  {
    if s != [] && IsWhitespace(s[0]) then TrimStart(s[1..]) else s
  }

  /** `str::trim_end`. */
  function TrimEnd(s: string): (r: string)
    ensures |r| <= |s| && r == s[..|r|]
    ensures AllWhitespace(s[|r|..])
    ensures r == [] || !IsWhitespace(r[|r| - 1])
  {
    if s != [] && IsWhitespace(s[|s| - 1]) then TrimEnd(s[..|s| - 1]) else s
  }

  /** `str::trim`. */
  function Trim(s: string): string {
    TrimEnd(TrimStart(s))
  }

  /** `str::trim` yields the empty string exactly for all-whitespace input. */
  lemma TrimEmptyIff(s: string)
    ensures Trim(s) == [] <==> AllWhitespace(s)
  {
    var t := TrimStart(s);
    if Trim(s) == [] {
      assert s == s[..|s| - |t|] + t;
    }
  }

  /** `str::trim_end_matches(|c| c.is_ascii_punctuation())`. */
  function TrimEndPunctuation(s: string): (r: string)
    ensures |r| <= |s| && r == s[..|r|]
    ensures r == [] || !IsAsciiPunctuation(r[|r| - 1])
    ensures forall i :: |r| <= i < |s| ==> IsAsciiPunctuation(s[i])
  {
    if s != [] && IsAsciiPunctuation(s[|s| - 1]) then TrimEndPunctuation(s[..|s| - 1]) else s
  }

  /** Length of the leading run of non-whitespace characters. */
  function WordLength(s: string): (n: nat)
    ensures n <= |s|
    ensures NoWhitespace(s[..n])
    ensures n == |s| || IsWhitespace(s[n])
  {
    if s == [] || IsWhitespace(s[0]) then 0 else 1 + WordLength(s[1..])
  }

  /** `str::split_whitespace`: the maximal non-empty runs of non-whitespace. */
  function Words(s: string): (r: seq<string>)
    ensures forall i :: 0 <= i < |r| ==> r[i] != [] && NoWhitespace(r[i])
    decreases |s|
  {
    var t := TrimStart(s);
    if t == [] then []
    else
      var n := WordLength(t);
      [t[..n]] + Words(t[n..])
  }

  /** `s` does not contain `c`. */
  predicate Avoids(s: string, c: char) {
    forall i :: 0 <= i < |s| ==> s[i] != c
  }

  /** The words of a text without `c` do not contain `c` either. */
  lemma {:induction false} WordsAvoid(s: string, c: char)
    requires Avoids(s, c)
    ensures forall i | 0 <= i < |Words(s)| :: Avoids(Words(s)[i], c)
    decreases |s|
  {
    var t := TrimStart(s);
    if t != [] {
      var n := WordLength(t);
      AvoidsPieces(s, t, n, c);
      WordsAvoid(t[n..], c);
      AvoidsEach(t[..n], Words(t[n..]), c);
      assert Words(s) == [t[..n]] + Words(t[n..]);
    } else {
      assert Words(s) == [];
    }
  }

  lemma AvoidsPieces(s: string, t: string, n: nat, c: char)
    requires Avoids(s, c) && |t| <= |s| && t == s[|s| - |t|..] && n <= |t|
    ensures Avoids(t[..n], c) && Avoids(t[n..], c)
  {
    assert forall k | 0 <= k < |t| :: t[k] == s[|s| - |t| + k];
  }

  lemma AvoidsEach(first: string, rest: seq<string>, c: char)
    requires Avoids(first, c) && forall i | 0 <= i < |rest| :: Avoids(rest[i], c)
    ensures forall i | 0 <= i < |[first] + rest| :: Avoids(([first] + rest)[i], c)
  {
    forall i | 0 <= i < |[first] + rest| ensures Avoids(([first] + rest)[i], c) {
      if i > 0 {
        assert ([first] + rest)[i] == rest[i - 1];
      }
    }
  }

  /** `[String]::join(sep)`. */
  function Join(parts: seq<string>, sep: string): string {
    if parts == [] then []
    else if |parts| == 1 then parts[0]
    else parts[0] + sep + Join(parts[1..], sep)
  }

  /** A word that is non-empty and holds no whitespace. */
  predicate IsWord(w: string) {
    w != [] && NoWhitespace(w)
  }

  lemma WordLengthOfWord(w: string, rest: string)
    requires NoWhitespace(w)
    requires rest == [] || IsWhitespace(rest[0])
    ensures WordLength(w + rest) == |w|
    decreases |w|
  {
    if w != [] {
      assert (w + rest)[1..] == w[1..] + rest;
      WordLengthOfWord(w[1..], rest);
    }
  }

  /** A single word splits into itself. */
  lemma WordsOfWord(w: string)
    requires IsWord(w)
    ensures Words(w) == [w]
  {
    assert TrimStart(w) == w;
    WordLengthOfWord(w, []);
    assert w + [] == w;
    assert w[..|w|] == w && w[|w|..] == [];
    assert TrimStart([]) == [];
  }

  /** A word followed by a space and more text splits off as the first word. */
  lemma WordsOfWordThen(w: string, rest: string)
    requires IsWord(w)
    ensures Words(w + " " + rest) == [w] + Words(rest)
  {
    var s := w + " " + rest;
    assert TrimStart(s) == s;
    WordLengthOfWord(w, " " + rest);
    assert s == w + (" " + rest);
    assert s[..|w|] == w;
    assert s[|w|..] == " " + rest;
    assert TrimStart(" " + rest) == TrimStart(rest) by {
      assert (" " + rest)[1..] == rest;
    }
    assert Words(s[|w|..]) == Words(rest);
  }

  /**
   * Splitting words joined by single spaces gives the words back: the
   * round trip behind every chunk produced by the text preprocessor.
   */
  lemma {:induction false} WordsOfJoin(ws: seq<string>)
    requires forall i :: 0 <= i < |ws| ==> IsWord(ws[i])
    ensures Words(Join(ws, " ")) == ws
    decreases |ws|
  {
    if ws == [] {
    } else if |ws| == 1 {
      WordsOfWord(ws[0]);
    } else {
      WordsOfWordThen(ws[0], Join(ws[1..], " "));
      WordsOfJoin(ws[1..]);
    }
  }

  /** Rust's `str::lines`: split at '\n', dropping one '\r' before each '\n';
      a trailing '\n' does not start an empty final line. */
  function Lines(s: string): (r: seq<string>)
    ensures s == [] <==> r == []
    decreases |s|
  {
    if s == [] then []
    else
      var i := IndexOf(s, '\n');
      if i == |s| then [s]
      else
        var line := s[..i];
        var line' := if line != [] && line[|line| - 1] == '\r' then line[..|line| - 1] else line;
        [line'] + Lines(s[i + 1..])
  }

  /** Index of the first occurrence of `c`, or |s| when there is none. */
  function IndexOf(s: string, c: char): (i: nat)
    ensures i <= |s|
    ensures forall j :: 0 <= j < i ==> s[j] != c
    ensures i < |s| ==> s[i] == c
  {
    if s == [] then 0 else if s[0] == c then 0 else 1 + IndexOf(s[1..], c)
  }

  /** Start of the first occurrence of `pat`, if any. */
  function Find(s: string, pat: string): (r: Option<nat>)
    ensures r.Some? ==> r.value + |pat| <= |s| && s[r.value..r.value + |pat|] == pat
    ensures r.Some? ==> forall j :: 0 <= j < r.value ==> !StartsWith(s[j..], pat)
    ensures r.None? ==> forall j :: 0 <= j <= |s| ==> !StartsWith(s[j..], pat)
    decreases |s|
  {
    if StartsWith(s, pat) then Some(0)
    else if s == [] then None
    else
      match Find(s[1..], pat)
      case None =>
        assert forall j :: 1 <= j <= |s| ==> s[j..] == s[1..][j - 1..];
        None
      case Some(k) =>
        assert forall j :: 1 <= j <= k ==> s[j..] == s[1..][j - 1..];
        assert s[k + 1..k + 1 + |pat|] == s[1..][k..k + |pat|] by {
          var w, w' := s[k + 1..k + 1 + |pat|], s[1..][k..k + |pat|];
          assert |w| == |w'| && forall t :: 0 <= t < |w| ==> w[t] == w'[t];
        }
        Some(k + 1)
  }


  lemma StartsWithAt(s: string, j: nat, pat: string)
    requires j <= |s|
    ensures StartsWith(s[j..], pat) <==> j + |pat| <= |s| && s[j..j + |pat|] == pat
  {
    if j + |pat| <= |s| {
      assert s[j..][..|pat|] == s[j..j + |pat|];
    }
  }

  /** Find reports the leftmost occurrence. */
  lemma FindIsFirst(s: string, pat: string, k: nat)
    requires k + |pat| <= |s| && s[k..k + |pat|] == pat
    requires forall j :: 0 <= j < k ==> !StartsWith(s[j..], pat)
    ensures Find(s, pat) == Some(k)
  {
    StartsWithAt(s, k, pat);
    assert StartsWith(s[k..], pat);
    var r := Find(s, pat);
    assert r.Some?;
    StartsWithAt(s, r.value, pat);
    assert StartsWith(s[r.value..], pat);
  }

  /** `str::contains` for a string pattern. */
  predicate Contains(s: string, pat: string) {
    Find(s, pat).Some?
  }

  /** ASCII `to_lowercase`. */
  function LowerChar(c: char): char {
    if 'A' <= c <= 'Z' then (c as int + 32) as char else c
  }

  function ToLower(s: string): (r: string)
    ensures |r| == |s|
    ensures forall i :: 0 <= i < |s| ==> r[i] == LowerChar(s[i])
  {
    if s == [] then [] else [LowerChar(s[0])] + ToLower(s[1..])
  }

  /** The decimal digit for `d`. */
  function DigitChar(d: nat): (c: char)
    requires d < 10
    ensures '0' <= c <= '9'
  {
    ('0' as int + d) as char
  }

  /** `format!("{}", n)` for an unsigned integer: its decimal digits. */
  function NatToString(n: nat): (r: string)
    ensures r != [] && forall i :: 0 <= i < |r| ==> '0' <= r[i] <= '9'
  {
    if n < 10 then [DigitChar(n)] else NatToString(n / 10) + [DigitChar(n % 10)]
  }

  predicate IsHexDigit(c: char) {
    '0' <= c <= '9' || 'a' <= c <= 'f'
  }

  predicate AllHex(s: string) {
    forall i :: 0 <= i < |s| ==> IsHexDigit(s[i])
  }

  /** The value of a lower-case hexadecimal digit. */
  function HexValue(c: char): (d: nat)
    requires IsHexDigit(c)
    ensures d < 16
  {
    if c <= '9' then c as int - '0' as int else c as int - 'a' as int + 10
  }

  /** The lower-case hexadecimal digit for `d`. */
  function HexDigit(d: nat): (c: char)
    requires d < 16
    ensures IsHexDigit(c) && HexValue(c) == d
  {
    if d < 10 then DigitChar(d) else ('a' as int + d - 10) as char
  }

  /** `format!("{:x}", n)`: lower-case hexadecimal without leading zeros. */
  function HexString(n: nat): (r: string)
    ensures r != [] && AllHex(r)
  {
    if n < 16 then [HexDigit(n)] else HexString(n / 16) + [HexDigit(n % 16)]
  }

  /** The number a string of hexadecimal digits denotes. */
  function ParseHex(s: string): nat
    requires AllHex(s)
  {
    if s == [] then 0 else ParseHex(s[..|s| - 1]) * 16 + HexValue(s[|s| - 1])
  }

  lemma {:induction false} ParseHexString(n: nat)
    ensures ParseHex(HexString(n)) == n
  {
    if n >= 16 {
      var r := HexString(n);
      assert r[..|r| - 1] == HexString(n / 16);
      ParseHexString(n / 16);
    }
  }

  /** The characters `char::escape_debug` writes as `\u{..}`: the ASCII
      control characters without a short escape. */
  predicate IsUnicodeEscaped(c: char) {
    (c < ' ' && c != '\0' && c != '\t' && c != '\r' && c != '\n') || c as int == 0x7F
  }

  /** The characters `{:?}` on a string changes. */
  predicate NeedsEscape(c: char) {
    c == '"' || c == '\\' || c == '\0' || c == '\t' || c == '\r' || c == '\n' || IsUnicodeEscaped(c)
  }

  /** `char::escape_debug` inside a `{:?}`-formatted string: a double quote
      and a backslash are escaped, NUL, tab, CR and LF get their short
      escapes, the other control characters `\u{..}` in lower-case hex;
      everything else is written as it is. */
  function EscapeDebugChar(c: char): (r: string)
    ensures !NeedsEscape(c) <==> r == [c]
  {
    if c == '"' then "\\\""
    else if c == '\\' then "\\\\"
    else if c == '\0' then "\\0"
    else if c == '\t' then "\\t"
    else if c == '\r' then "\\r"
    else if c == '\n' then "\\n"
    else if IsUnicodeEscaped(c) then "\\u{" + HexString(c as nat) + "}"
    else [c]
  }

  /** The escaped characters of a `{:?}`-formatted string, without its quotes. */
  function EscapeDebug(s: string): string {
    if s == [] then [] else EscapeDebugChar(s[0]) + EscapeDebug(s[1..])
  }

  /** `format!("{:?}", s)` for a `String`. */
  function DebugString(s: string): string {
    "\"" + EscapeDebug(s) + "\""
  }

  function PrependChar(c: char, r: Option<string>): Option<string> {
    if r.Some? then Some([c] + r.value) else None
  }

  /** Reads the escapes `EscapeDebug` writes back into characters; a
      `\u{..}` escape is read for the ASCII range only. */
  function UnescapeDebug(t: string): Option<string>
    decreases |t|
  {
    if t == [] then Some([])
    else if t[0] != '\\' then PrependChar(t[0], UnescapeDebug(t[1..]))
    else if |t| < 2 then None
    else if t[1] == '"' then PrependChar('"', UnescapeDebug(t[2..]))
    else if t[1] == '\\' then PrependChar('\\', UnescapeDebug(t[2..]))
    else if t[1] == '0' then PrependChar('\0', UnescapeDebug(t[2..]))
    else if t[1] == 't' then PrependChar('\t', UnescapeDebug(t[2..]))
    else if t[1] == 'r' then PrependChar('\r', UnescapeDebug(t[2..]))
    else if t[1] == 'n' then PrependChar('\n', UnescapeDebug(t[2..]))
    else if t[1] == 'u' then
      match UnicodeEscapeAt(t)
      case None => None
      case Some((c, n)) => PrependChar(c, UnescapeDebug(t[n..]))
    else None
  }

  /** A `\u{..}` escape at the head of `t`, in the ASCII range: its
      character and the escape's length. */
  function UnicodeEscapeAt(t: string): (r: Option<(char, nat)>)
    ensures r.Some? ==> 0 < r.value.1 <= |t|
  {
    if |t| < 4 || t[..3] != "\\u{" then None
    else
      var k := IndexOf(t, '}');
      if k == |t| || k < 4 || !AllHex(t[3..k]) || ParseHex(t[3..k]) >= 0x80 then None
      else Some((ParseHex(t[3..k]) as char, k + 1))
  }

  /** One `\u{..}` escape reads back as its character. */
  lemma UnicodeEscapeOf(c: char, rest: string)
    requires IsUnicodeEscaped(c)
    ensures UnicodeEscapeAt(EscapeDebugChar(c) + rest) == Some((c, |EscapeDebugChar(c)|))
  {
    var h := HexString(c as nat);
    var t := "\\u{" + h + "}" + rest;
    assert EscapeDebugChar(c) + rest == t;
    var k := 3 + |h|;
    assert t[..3] == "\\u{";
    assert t[k] == '}' && forall j :: 0 <= j < k ==> t[j] != '}';
    assert IndexOf(t, '}') == k;
    assert t[3..k] == h;
    ParseHexString(c as nat);
  }

  lemma UnescapeUnicodeThen(c: char, rest: string)
    requires IsUnicodeEscaped(c)
    ensures UnescapeDebug(EscapeDebugChar(c) + rest) == PrependChar(c, UnescapeDebug(rest))
  {
    var t := EscapeDebugChar(c) + rest;
    UnicodeEscapeOf(c, rest);
    assert t[0] == '\\' && t[1] == 'u';
    assert t[|EscapeDebugChar(c)|..] == rest;
  }

  /** One escaped character reads back as itself. */
  lemma UnescapeCharThen(c: char, rest: string)
    requires c as int < 0x80
    ensures UnescapeDebug(EscapeDebugChar(c) + rest) == PrependChar(c, UnescapeDebug(rest))
  {
    var t := EscapeDebugChar(c) + rest;
    if IsUnicodeEscaped(c) {
      UnescapeUnicodeThen(c, rest);
    } else if NeedsEscape(c) {
      assert t[2..] == rest;
    } else {
      assert t[1..] == rest;
    }
  }

  /** Escaping loses nothing: the escapes read back as the original text. */
  lemma {:induction false} UnescapeEscapeDebug(s: string)
    requires forall i :: 0 <= i < |s| ==> s[i] as int < 0x80
    ensures UnescapeDebug(EscapeDebug(s)) == Some(s)
  {
    if s != [] {
      UnescapeEscapeDebug(s[1..]);
      UnescapeCharThen(s[0], EscapeDebug(s[1..]));
      assert [s[0]] + s[1..] == s;
    }
  }

  /** Text with nothing to escape is written as it is. */
  lemma {:induction false} EscapeDebugPlain(s: string)
    requires forall i :: 0 <= i < |s| ==> !NeedsEscape(s[i])
    ensures EscapeDebug(s) == s
  {
    if s != [] {
      EscapeDebugPlain(s[1..]);
    }
  }
}

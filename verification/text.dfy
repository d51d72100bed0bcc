/** String helpers shared by the parsers and the message builders: the ASCII
    character classes the source's regular expressions use, `trim`, `split`,
    `join`, decimal rendering of ids and counts, and UTF-8 byte length. */
module Text {
  import opened Ints
  import opened Wrappers

  // ---------------------------------------------------------------------------
  // Character classes
  // ---------------------------------------------------------------------------

  predicate IsAsciiUpper(c: char) { 'A' <= c <= 'Z' }

  predicate IsAsciiLower(c: char) { 'a' <= c <= 'z' }

  /** `[a-zA-Z]` */
  predicate IsAsciiLetter(c: char) { IsAsciiUpper(c) || IsAsciiLower(c) }

  /** ASCII `[0-9]` */
  predicate IsDigit(c: char) { '0' <= c <= '9' }

  /** The ASCII members of Unicode White_Space, which is what `\s`, `trim` and
      `split_whitespace` recognise below U+0080. */
  predicate IsWhitespace(c: char) {
    c == ' ' || c == '\t' || c == '\n' || c == '\r' || c == '\U{0B}' || c == '\U{0C}'
  }

  predicate AllWhitespace(s: string) {
    forall i :: 0 <= i < |s| ==> IsWhitespace(s[i])
  }

  predicate NoWhitespace(s: string) {
    forall i :: 0 <= i < |s| ==> !IsWhitespace(s[i])
  }

  // ---------------------------------------------------------------------------
  // str predicates used by the match modes
  // ---------------------------------------------------------------------------

  /** `s.starts_with(p)` */
  predicate StartsWith(s: string, p: string) { p <= s }

  /** `s.ends_with(p)` */
  predicate EndsWith(s: string, p: string) {
    |p| <= |s| && s[|s| - |p|..] == p
  }

  /** A suffix of `b` stays a suffix when text is put in front of `b`. */
  lemma EndsWithAppend(a: string, b: string, t: string)
    requires EndsWith(b, t)
    ensures EndsWith(a + b, t)
  {
    assert (a + b)[|a + b| - |t|..] == b[|b| - |t|..];
  }

  /** `p` occurs in `s` starting at index `i`. */
  predicate OccursAt(s: string, p: string, i: nat) {
    i + |p| <= |s| && s[i..i + |p|] == p
  }

  /** `s.contains(p)`; the empty pattern occurs in every string. */
  predicate Contains(s: string, p: string) {
    exists i: nat | i <= |s| :: OccursAt(s, p, i)
  }

  // ---------------------------------------------------------------------------
  // Case
  // ---------------------------------------------------------------------------

  function LowerChar(c: char): char {
    if IsAsciiUpper(c) then (c as int + 32) as char else c
  }

  /** No upper-case ASCII letter occurs in `s`. */
  predicate NoUpper(s: string) {
    forall i :: 0 <= i < |s| ==> !IsAsciiUpper(s[i])
  }

  /** `to_lowercase` restricted to ASCII: upper-case letters become lower-case,
      every other character is kept. */
  function ToLower(s: string): (r: string)
    ensures |r| == |s|
    ensures NoUpper(r)
    ensures forall i :: 0 <= i < |s| ==> (IsAsciiLetter(r[i]) <==> IsAsciiLetter(s[i]))
    ensures forall i :: 0 <= i < |s| && !IsAsciiUpper(s[i]) ==> r[i] == s[i]
    ensures forall i :: 0 <= i < |s| ==> (IsWhitespace(r[i]) <==> IsWhitespace(s[i]))
  {
    seq(|s|, i requires 0 <= i < |s| => LowerChar(s[i]))
  }

  /** Lower-casing changes nothing without upper-case letters. */
  lemma ToLowerNoop(s: string)
    requires NoUpper(s)
    ensures ToLower(s) == s
  {
    assert forall i :: 0 <= i < |s| ==> ToLower(s)[i] == s[i];
  }

  // ---------------------------------------------------------------------------
  // Trimming
  // ---------------------------------------------------------------------------

  /** `trim_start`: drop the longest all-whitespace prefix. */
  function TrimStart(s: string): (r: string)
    ensures |r| <= |s| && r == s[|s| - |r|..]
    ensures AllWhitespace(s[..|s| - |r|])
    ensures r == [] || !IsWhitespace(r[0])
  {
    if |s| > 0 && IsWhitespace(s[0]) then
      var r := TrimStart(s[1..]);
      TrimStartStep(s, r);
      r
    else s
  }

  lemma TrimStartStep(s: string, r: string)
    requires |s| > 0 && IsWhitespace(s[0])
    requires |r| <= |s| - 1 && r == s[1..][|s| - 1 - |r|..]
    requires AllWhitespace(s[1..][..|s| - 1 - |r|])
    ensures r == s[|s| - |r|..] && AllWhitespace(s[..|s| - |r|])
  {
    assert s[..|s| - |r|] == [s[0]] + s[1..][..|s| - 1 - |r|];
  }

  /** `trim_end`: drop the longest all-whitespace suffix. */
  function TrimEnd(s: string): (r: string)
    ensures |r| <= |s| && r == s[..|r|]
    ensures AllWhitespace(s[|r|..])
    ensures r == [] || !IsWhitespace(r[|r| - 1])
  {
    if |s| > 0 && IsWhitespace(s[|s| - 1]) then
      var r := TrimEnd(s[..|s| - 1]);
      assert s[|r|..] == s[..|s| - 1][|r|..] + [s[|s| - 1]];
      r
    else s
  }

  /** `trim`: the result is a slice of `s`, everything cut off is whitespace,
      and the result neither starts nor ends with whitespace. */
  function Trim(s: string): (r: string)
    ensures exists i :: (0 <= i <= |s| - |r| && r == s[i..i + |r|]
                         && AllWhitespace(s[..i]) && AllWhitespace(s[i + |r|..]))
    ensures r == [] || (!IsWhitespace(r[0]) && !IsWhitespace(r[|r| - 1]))
  {
    var t := TrimStart(s);
    var r := TrimEnd(t);
    TrimFacts(s, t, r);
    r
  }

  lemma TrimFacts(s: string, t: string, r: string)
    requires t == TrimStart(s) && r == TrimEnd(t)
    ensures exists i :: (0 <= i <= |s| - |r| && r == s[i..i + |r|]
                         && AllWhitespace(s[..i]) && AllWhitespace(s[i + |r|..]))
    ensures r == [] || (!IsWhitespace(r[0]) && !IsWhitespace(r[|r| - 1]))
  {
    var i := |s| - |t|;
    TrimWitness(s, t, r, i);
    assert (0 <= i <= |s| - |r| && r == s[i..i + |r|]
            && AllWhitespace(s[..i]) && AllWhitespace(s[i + |r|..]));
    if |r| > 0 {
      assert r[0] == t[0];
    }
  }

  lemma TrimWitness(s: string, t: string, r: string, i: nat)
    requires i <= |s| && t == s[i..] && AllWhitespace(s[..i])
    requires |r| <= |t| && r == t[..|r|] && AllWhitespace(t[|r|..])
    ensures 0 <= i <= |s| - |r| && r == s[i..i + |r|]
    ensures AllWhitespace(s[..i]) && AllWhitespace(s[i + |r|..])
  {
    assert s[i + |r|..] == t[|r|..];
  }

  /** A string that neither starts nor ends with whitespace is its own trim. */
  lemma TrimNoop(w: string)
    requires |w| > 0 ==> !IsWhitespace(w[0]) && !IsWhitespace(w[|w| - 1])
    ensures Trim(w) == w
  {
    assert TrimStart(w) == w;
    assert TrimEnd(w) == w;
  }

  /** Leading whitespace goes, and nothing else when the rest is already
      trimmed. */
  lemma TrimAfterSpace(w: string)
    requires |w| > 0 ==> !IsWhitespace(w[0]) && !IsWhitespace(w[|w| - 1])
    ensures Trim(" " + w) == w
  {
    assert (" " + w)[1..] == w;
    assert TrimStart(" " + w) == TrimStart(w) == w;
    assert TrimEnd(w) == w;
  }

  /** `trim_start_matches(p)` for a non-empty literal `p`: strip `p` from the
      front as often as it occurs there. */
  function StripPrefixRepeatedly(s: string, p: string): (r: string)
    requires |p| > 0
    ensures |r| <= |s| && r == s[|s| - |r|..]
    ensures !StartsWith(r, p)
    decreases |s|
  {
    if StartsWith(s, p) then
      var r := StripPrefixRepeatedly(s[|p|..], p);
      SuffixOfSuffix(s, |p|, r);
      r
    else s
  }

  lemma SuffixOfSuffix(s: string, k: nat, r: string)
    requires k <= |s| && |r| <= |s| - k && r == s[k..][|s| - k - |r|..]
    ensures r == s[|s| - |r|..]
  {
  }

  // ---------------------------------------------------------------------------
  // Splitting and joining
  // ---------------------------------------------------------------------------

  /** `parts.join(sep)`; an empty list joins to the empty string. */
  function Join(parts: seq<string>, sep: string): string
  {
    if |parts| == 0 then ""
    else if |parts| == 1 then parts[0]
    else parts[0] + sep + Join(parts[1..], sep)
  }

  /** `s.split(sep)` for a single-character separator: the pieces between
      separators, so there is always at least one piece, none contains `sep`,
      and joining them back with `sep` gives `s`. */
  function Split(s: string, sep: char): (r: seq<string>)
    ensures |r| >= 1
    ensures forall k :: 0 <= k < |r| ==> sep !in r[k]
    ensures Join(r, [sep]) == s
  {
    if |s| == 0 then [""]
    else if s[0] == sep then [""] + Split(s[1..], sep)
    else
      var rest := Split(s[1..], sep);
      assert s == [s[0]] + s[1..];
      [[s[0]] + rest[0]] + rest[1..]
  }

  /** Splitting a join on a separator no part contains gives the parts back. */
  lemma {:induction false} SplitJoin(parts: seq<string>, sep: char)
    requires |parts| >= 1
    requires forall k :: 0 <= k < |parts| ==> sep !in parts[k]
    ensures Split(Join(parts, [sep]), sep) == parts
    decreases |parts|, |parts[0]|
  {
    var p := parts[0];
    if |p| == 0 {
      if |parts| > 1 {
        SplitJoin(parts[1..], sep);
        assert Join(parts, [sep]) == [sep] + Join(parts[1..], [sep]);
      }
    } else {
      var parts' := [p[1..]] + parts[1..];
      SplitJoin(parts', sep);
      assert p == [p[0]] + p[1..];
      if |parts| == 1 {
        assert Join(parts, [sep]) == [p[0]] + Join(parts', [sep]);
      } else {
        assert parts'[1..] == parts[1..];
        assert Join(parts, [sep]) == [p[0]] + Join(parts', [sep]);
      }
      assert Join(parts, [sep])[0] == p[0] != sep;
    }
  }

  /** The length of the leading run of non-whitespace characters. */
  function TokenLength(s: string): (k: nat)
    ensures k <= |s|
    ensures NoWhitespace(s[..k])
    ensures k == |s| || IsWhitespace(s[k])
  {
    if |s| == 0 || IsWhitespace(s[0]) then 0
    else
      var k := 1 + TokenLength(s[1..]);
      assert s[..k] == [s[0]] + s[1..][..k - 1];
      k
  }

  /** `s.split_whitespace()`: the maximal runs of non-whitespace characters. */
  function SplitWhitespace(s: string): (r: seq<string>)
    ensures forall k :: 0 <= k < |r| ==> |r[k]| > 0 && NoWhitespace(r[k])
    decreases |s|
  {
    if |s| == 0 then []
    else if IsWhitespace(s[0]) then SplitWhitespace(s[1..])
    else
      var k := TokenLength(s);
      [s[..k]] + SplitWhitespace(s[k..])
  }

  /** Joining whitespace-free tokens with single spaces and splitting again
      gives the tokens back. */
  lemma {:induction false} SplitWhitespaceJoin(tokens: seq<string>)
    requires forall k :: 0 <= k < |tokens| ==> |tokens[k]| > 0 && NoWhitespace(tokens[k])
    ensures SplitWhitespace(Join(tokens, " ")) == tokens
  {
    if |tokens| == 1 {
      var w := tokens[0];
      TokenOfJoin(w, "");
      assert w + "" == w;
      assert w[|w|..] == "";
    } else if |tokens| > 1 {
      var w := tokens[0];
      var rest := Join(tokens[1..], " ");
      var s := Join(tokens, " ");
      assert s == w + (" " + rest);
      TokenOfJoin(w, " " + rest);
      assert s[|w|..] == " " + rest;
      assert (" " + rest)[1..] == rest;
      SplitWhitespaceJoin(tokens[1..]);
    }
  }

  lemma {:induction false} TokenOfJoin(w: string, rest: string)
    requires |w| > 0 && NoWhitespace(w)
    requires rest == [] || IsWhitespace(rest[0])
    ensures TokenLength(w + rest) == |w|
    decreases |w|
  {
    if |w| > 1 {
      assert (w + rest)[1..] == w[1..] + rest;
      TokenOfJoin(w[1..], rest);
    } else {
      assert (w + rest)[1..] == rest;
    }
  }

  /** Each string followed by a newline, concatenated: the body of a code block
      with one entry per line. */
  function Lines(ws: seq<string>): string
  {
    if |ws| == 0 then "" else ws[0] + "\n" + Lines(ws[1..])
  }

  /** The lines of a code block split back into its entries, plus the empty
      piece after the final newline. */
  lemma {:induction false} LinesSplit(ws: seq<string>)
    requires forall k :: 0 <= k < |ws| ==> '\n' !in ws[k]
    ensures Split(Lines(ws), '\n') == ws + [""]
  {
    LinesIsJoin(ws);
    SplitJoin(ws + [""], '\n');
  }

  lemma LinesIsJoin(ws: seq<string>)
    ensures Lines(ws) == Join(ws + [""], "\n")
  {
    LinesThenJoin(ws, "");
    assert Lines(ws) + "" == Lines(ws);
  }

  /** Lines followed by an unterminated last line are the newline join of all
      of them. */
  lemma {:induction false} LinesThenJoin(ws: seq<string>, t: string)
    ensures Lines(ws) + t == Join(ws + [t], "\n")
  {
    if |ws| > 0 {
      LinesThenJoin(ws[1..], t);
      assert (ws + [t])[1..] == ws[1..] + [t];
    } else {
      assert ws + [t] == [t];
    }
  }

  /** Splitting lines followed by an unterminated last line on newlines gives
      every line back. */
  lemma LinesThenSplit(ws: seq<string>, t: string)
    requires forall k :: 0 <= k < |ws| ==> '\n' !in ws[k]
    requires '\n' !in t
    ensures Split(Lines(ws) + t, '\n') == ws + [t]
  {
    LinesThenJoin(ws, t);
    SplitJoin(ws + [t], '\n');
  }

  /** A character none of the entries holds is not in their lines, unless it
      is the newline. */
  lemma {:induction false} NotInLines(ws: seq<string>, c: char)
    requires c != '\n'
    requires forall k :: 0 <= k < |ws| ==> c !in ws[k]
    ensures c !in Lines(ws)
  {
    if |ws| > 0 {
      NotInLines(ws[1..], c);
    }
  }

  // ---------------------------------------------------------------------------
  // Decimal numbers
  // ---------------------------------------------------------------------------

  function DigitChar(d: nat): char
    requires d < 10
  {
    ('0' as int + d) as char
  }

  function DigitValue(c: char): nat
    requires IsDigit(c)
  {
    c as int - '0' as int
  }

  predicate AllDigits(s: string) {
    forall i :: 0 <= i < |s| ==> IsDigit(s[i])
  }

  /** `format!("{}", n)`: decimal digits, no sign, no leading zero. */
  function DecimalString(n: nat): (r: string)
    ensures |r| > 0 && AllDigits(r)
    ensures n > 0 ==> r[0] != '0'
  {
    if n < 10 then [DigitChar(n)] else DecimalString(n / 10) + [DigitChar(n % 10)]
  }

  /** The number a string of ASCII digits denotes. */
  function DigitsValue(s: string): nat
    requires AllDigits(s)
  {
    if |s| == 0 then 0 else 10 * DigitsValue(s[..|s| - 1]) + DigitValue(s[|s| - 1])
  }

  lemma {:induction false} DecimalRoundTrip(n: nat)
    ensures DigitsValue(DecimalString(n)) == n
  {
    if n >= 10 {
      DecimalRoundTrip(n / 10);
      var s := DecimalString(n);
      assert s[..|s| - 1] == DecimalString(n / 10);
    }
  }

  /** Rust's `str::parse::<u64>()` (also `usize`): an optional `+`, then at
      least one ASCII digit and nothing else; values past `u64::MAX` fail. */
  function ParseU64(s: string): (r: Option<u64>)
    ensures r.Some? ==> |s| > 0
    ensures AllDigits(s) && |s| > 0 && DigitsValue(s) < TWO_TO_THE_64 ==> r == Some(DigitsValue(s) as u64)
  {
    var body := if |s| > 0 && s[0] == '+' then s[1..] else s;
    if |body| > 0 && AllDigits(body) && DigitsValue(body) < TWO_TO_THE_64 then
      Some(DigitsValue(body) as u64)
    else None
  }

  lemma ParseDecimal(n: u64)
    ensures ParseU64(DecimalString(n)) == Some(n)
  {
    DecimalRoundTrip(n);
  }

  // ---------------------------------------------------------------------------
  // UTF-8 length (`str::len`)
  // ---------------------------------------------------------------------------

  function Utf8CharLength(c: char): nat {
    if c as int < 0x80 then 1
    else if c as int < 0x800 then 2
    else if c as int < 0x1_0000 then 3
    else 4
  }

  predicate IsAscii(s: string) {
    forall i :: 0 <= i < |s| ==> s[i] as int < 0x80
  }

  /** `s.len()`: the UTF-8 byte length. It is never below the character count
      and equals it exactly when every character is ASCII. */
  function Utf8Length(s: string): (n: nat)
    ensures n >= |s|
    ensures n == |s| <==> IsAscii(s)
  {
    if |s| == 0 then 0 else Utf8CharLength(s[0]) + Utf8Length(s[1..])
  }
}

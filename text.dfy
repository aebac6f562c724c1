/** The .NET string operations the wrapper relies on: `string.IsNullOrWhiteSpace`,
    `Int32.ToString` (through string concatenation) and `String.Split` on
    blanks and newlines with empty entries removed. */
module Text {
  import opened Structures

  /** `char.IsWhiteSpace`: the Unicode space separators, line and paragraph
      separators, and the control characters U+0009 to U+000D and U+0085.
      Both characters `Split` cuts at are among them. */
  function IsWhiteSpace(c: char): (ws: bool)
    ensures IsSeparator(c) ==> ws
  {
    ('\U{0009}' <= c <= '\U{000D}') || c == ' ' || c == '\U{0085}' || c == '\U{00A0}' ||
    c == '\U{1680}' || ('\U{2000}' <= c <= '\U{200A}') || c == '\U{2028}' || c == '\U{2029}' ||
    c == '\U{202F}' || c == '\U{205F}' || c == '\U{3000}'
  }

  /** `String.TrimStart()`: the text without its leading white space. */
  function TrimStart(s: string): (t: string)
    ensures |t| <= |s| && t == s[|s| - |t|..]
    ensures forall i :: 0 <= i < |s| - |t| ==> IsWhiteSpace(s[i])
    ensures t == [] || !IsWhiteSpace(t[0])
    decreases |s|
  {
    if s != [] && IsWhiteSpace(s[0]) then TrimStart(s[1..]) else s
  }

  /** A text is white space only exactly when trimming leaves nothing. */
  lemma TrimStartEmptyIff(s: string)
    ensures (forall i :: 0 <= i < |s| ==> IsWhiteSpace(s[i])) <==> TrimStart(s) == ""
  {
    var t := TrimStart(s);
    if t != "" {
      assert s[|s| - |t|] == t[0];
    }
  }

  /** `string.IsNullOrWhiteSpace`: null, empty, or white space only; as .NET
      documents it, null or a text whose `Trim()` is empty. */
  function IsNullOrWhiteSpace(s: Option<string>): (blank: bool)
    ensures blank <==> s.None? || TrimStart(s.value) == ""
  {
    if s.None? then true
    else
      TrimStartEmptyIff(s.value);
      forall i :: 0 <= i < |s.value| ==> IsWhiteSpace(s.value[i])
  }

  // ---------------------------------------------------------------------------
  // Decimal rendering of an Int32, as `"..." + init` produces it.

  function DigitChar(d: int): char
    requires 0 <= d < 10
  {
    ('0' as int + d) as char
  }

  predicate IsDigit(c: char) {
    '0' <= c <= '9'
  }

  /** The decimal digits of `n`, most significant first, with no leading zero. */
  function NatToString(n: nat): (s: string)
    ensures |s| >= 1
    ensures forall i :: 0 <= i < |s| ==> IsDigit(s[i])
    ensures s[0] == '0' <==> n == 0
    decreases n
  {
    if n < 10 then [DigitChar(n)] else NatToString(n / 10) + [DigitChar(n % 10)]
  }

  /** Culture-invariant `Int32.ToString`: an optional minus sign and the
      decimal digits, most significant first, with no leading zeros. */
  function IntToString(n: int): (s: string)
    ensures |s| >= 1 && (s[0] == '-' <==> n < 0)
    ensures forall i :: (if n < 0 then 1 else 0) <= i < |s| ==> IsDigit(s[i])
    ensures n < 0 ==> |s| >= 2 && s[1] != '0'
    ensures n >= 0 ==> (s[0] == '0' <==> n == 0)
  {
    if n < 0 then "-" + NatToString(-n) else NatToString(n)
  }

  function ParseNat(s: string): int
    requires forall i :: 0 <= i < |s| ==> IsDigit(s[i])
    decreases |s|
  {
    if s == [] then 0 else ParseNat(s[..|s| - 1]) * 10 + (s[|s| - 1] as int - '0' as int)
  }

  /** Reads back what `IntToString` writes. */
  function ParseInt(s: string): int
    requires |s| >= 1
    requires forall i :: (if s[0] == '-' then 1 else 0) <= i < |s| ==> IsDigit(s[i])
  {
    if s[0] == '-' then -ParseNat(s[1..]) else ParseNat(s)
  }

  lemma {:induction false} NatToStringRoundTrip(n: nat)
    ensures ParseNat(NatToString(n)) == n
    decreases n
  {
    if n >= 10 {
      NatToStringRoundTrip(n / 10);
      var s := NatToString(n);
      assert s[..|s| - 1] == NatToString(n / 10);
    }
  }

  /** The error text's number can be read back: distinct Init3 codes give
      distinct messages. */
  lemma {:induction false} IntToStringRoundTrip(n: int)
    ensures |IntToString(n)| >= 1
    ensures forall i :: (if IntToString(n)[0] == '-' then 1 else 0) <= i < |IntToString(n)| ==> IsDigit(IntToString(n)[i])
    ensures ParseInt(IntToString(n)) == n
  {
    if n < 0 {
      NatToStringRoundTrip(-n);
      assert IntToString(n)[1..] == NatToString(-n);
    } else {
      NatToStringRoundTrip(n);
    }
  }

  // ---------------------------------------------------------------------------
  // `text.Split(new[] { ' ', '\n' }, StringSplitOptions.RemoveEmptyEntries)`

  predicate IsSeparator(c: char) {
    c == ' ' || c == '\n'
  }

  /** A token `Split` can return: non-empty, with no separator in it. */
  predicate IsToken(w: string) {
    |w| >= 1 && forall i :: 0 <= i < |w| ==> !IsSeparator(w[i])
  }

  /** The text with its leading separators removed. */
  function SkipSeparators(s: string): (t: string)
    ensures |t| <= |s| && t == s[|s| - |t|..]
    ensures t == [] || !IsSeparator(t[0])
    decreases |s|
  {
    if s != [] && IsSeparator(s[0]) then SkipSeparators(s[1..]) else s
  }

  /** The longest prefix of the text that holds no separator. */
  function LeadingWord(s: string): (w: string)
    ensures |w| <= |s| && w == s[..|w|]
    ensures s != [] && !IsSeparator(s[0]) ==> |w| >= 1
    ensures forall i :: 0 <= i < |w| ==> !IsSeparator(s[i])
    ensures |w| == |s| || IsSeparator(s[|w|])
    decreases |s|
  {
    if s == [] || IsSeparator(s[0]) then [] else [s[0]] + LeadingWord(s[1..])
  }

  /** The tokens of the text, in order; runs of separators yield no empty
      entry (see `SplitWordsAreTokens`). */
  function SplitWords(s: string): (words: seq<string>)
    ensures words != [] ==> IsToken(words[0])
    decreases |s|
  {
    var t := SkipSeparators(s);
    if t == [] then []
    else
      var w := LeadingWord(t);
      [w] + SplitWords(t[|w|..])
  }

  lemma {:induction false} SkipSeparatorsEmptyIff(s: string)
    ensures SkipSeparators(s) == [] <==> forall i :: 0 <= i < |s| ==> IsSeparator(s[i])
    decreases |s|
  {
    if s != [] && IsSeparator(s[0]) {
      SkipSeparatorsEmptyIff(s[1..]);
      assert forall i :: 1 <= i < |s| ==> s[i] == s[1..][i - 1];
    }
  }

  /** A text splits into no entry exactly when it holds separators only. */
  lemma SplitWordsEmptyIff(s: string)
    ensures SplitWords(s) == [] <==> forall i :: 0 <= i < |s| ==> IsSeparator(s[i])
  {
    SkipSeparatorsEmptyIff(s);
  }

  /** The first entry is the leading word after the leading separators. */
  lemma SplitWordsUnfold(s: string)
    requires SkipSeparators(s) != []
    ensures |LeadingWord(SkipSeparators(s))| <= |SkipSeparators(s)|
    ensures SplitWords(s) == [LeadingWord(SkipSeparators(s))] +
                             SplitWords(SkipSeparators(s)[|LeadingWord(SkipSeparators(s))|..])
  {
  }

  /** A token in front of tokens gives tokens. */
  lemma TokensCons(w: string, ws: seq<string>)
    requires IsToken(w) && forall k :: 0 <= k < |ws| ==> IsToken(ws[k])
    ensures forall k :: 0 <= k < |[w] + ws| ==> IsToken(([w] + ws)[k])
  {
    forall k | 0 <= k < |[w] + ws|
      ensures IsToken(([w] + ws)[k])
    {
      if k > 0 {
        assert ([w] + ws)[k] == ws[k - 1];
      }
    }
  }

  lemma {:induction false} SplitWordsAreTokens(s: string)
    ensures forall k :: 0 <= k < |SplitWords(s)| ==> IsToken(SplitWords(s)[k])
    decreases |s|
  {
    var t := SkipSeparators(s);
    if t != [] {
      var w := LeadingWord(t);
      assert IsToken(w) by {
        assert |w| >= 1;
      }
      var rest := t[|w|..];
      SplitWordsUnfold(s);
      assert SplitWords(s) == [w] + SplitWords(rest);
      SplitWordsAreTokens(rest);
      TokensCons(w, SplitWords(rest));
    }
  }

  lemma {:induction false} LeadingWordOfToken(w: string, rest: string)
    requires IsToken(w)
    ensures LeadingWord(w + " " + rest) == w
    decreases |w|
  {
    if |w| > 1 {
      assert (w + " " + rest)[1..] == w[1..] + " " + rest;
      LeadingWordOfToken(w[1..], rest);
    } else {
      assert (w + " " + rest)[1..] == " " + rest;
    }
  }

  /** A separator in front of the text adds no entry. */
  lemma SplitWordsSkipsSeparator(c: char, rest: string)
    requires IsSeparator(c)
    ensures SplitWords([c] + rest) == SplitWords(rest)
  {
    assert ([c] + rest)[1..] == rest;
    assert SkipSeparators([c] + rest) == SkipSeparators(rest);
  }

  /** A token followed by a blank splits off as one entry. */
  lemma SplitWordsCons(w: string, rest: string)
    requires IsToken(w)
    ensures SplitWords(w + " " + rest) == [w] + SplitWords(rest)
  {
    var s := w + " " + rest;
    var tail := " " + rest;
    assert s == w + tail;
    assert SkipSeparators(s) == s by {
      assert s[0] == w[0];
    }
    assert LeadingWord(s) == w by {
      LeadingWordOfToken(w, rest);
    }
    assert s[|w|..] == tail;
    assert SplitWords(s) == [w] + SplitWords(tail) by {
      SplitWordsUnfold(s);
    }
    assert SplitWords(tail) == SplitWords(rest) by {
      SplitWordsSkipsSeparator(' ', rest);
    }
  }
}

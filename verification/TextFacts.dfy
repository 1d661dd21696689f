/** What the string operations of `Text` mean, said without them. */
module TextFacts {
  import opened Wrappers
  import opened Text

  // ----- White space

  /** The 25 characters, one by one. */
  lemma WhitespaceIs(c: char)
    ensures IsWhitespace(c) <==>
            c in ['\t', '\n', '\U{0B}', '\U{0C}', '\r', ' ', '\U{85}', '\U{A0}', '\U{1680}',
                  '\U{2000}', '\U{2001}', '\U{2002}', '\U{2003}', '\U{2004}', '\U{2005}', '\U{2006}',
                  '\U{2007}', '\U{2008}', '\U{2009}', '\U{200A}',
                  '\U{2028}', '\U{2029}', '\U{202F}', '\U{205F}', '\U{3000}']
  {
  }

  predicate Blank(s: string) {
    forall i | 0 <= i < |s| :: IsWhitespace(s[i])
  }

  /** Nothing at either end is white space. */
  predicate Tight(s: string) {
    s != "" ==> !IsWhitespace(s[0]) && !IsWhitespace(s[|s| - 1])
  }

  lemma {:induction false} TrimStartParts(s: string) returns (before: string)
    ensures Blank(before) && s == before + TrimStart(s)
    ensures TrimStart(s) != "" ==> !IsWhitespace(TrimStart(s)[0])
  {
    hide IsWhitespace;
    if s != "" && IsWhitespace(s[0]) {
      before := TrimStartParts(s[1..]);
      before := [s[0]] + before;
      assert s == [s[0]] + s[1..];
    } else {
      before := "";
    }
  }

  lemma {:induction false} TrimEndParts(s: string) returns (after: string)
    ensures Blank(after) && s == TrimEnd(s) + after
    ensures TrimEnd(s) != "" ==> !IsWhitespace(TrimEnd(s)[|TrimEnd(s)| - 1])
  {
    hide IsWhitespace;
    if s != "" && IsWhitespace(s[|s| - 1]) {
      after := TrimEndParts(s[..|s| - 1]);
      after := after + [s[|s| - 1]];
      assert s == s[..|s| - 1] + [s[|s| - 1]];
    } else {
      after := "";
    }
  }

  /** Trimming takes white space off both ends and leaves none there. */
  lemma TrimParts(s: string) returns (before: string, after: string)
    ensures Blank(before) && Blank(after) && s == before + Trim(s) + after && Tight(Trim(s))
  {
    hide IsWhitespace, Blank, TrimStart, TrimEnd;
    before := TrimStartParts(s);
    after := TrimEndParts(TrimStart(s));
    assert TrimStart(s) == Trim(s) + after;
    assert s == before + (Trim(s) + after);
    assert Trim(s) != "" ==> Trim(s)[0] == TrimStart(s)[0];
  }

  lemma {:induction false} TrimStartOf(before: string, core: string)
    requires Blank(before) && (core != "" ==> !IsWhitespace(core[0]))
    ensures TrimStart(before + core) == core
  {
    hide IsWhitespace;
    if before == "" {
      assert before + core == core;
    } else {
      assert (before + core)[1..] == before[1..] + core;
      TrimStartOf(before[1..], core);
    }
  }

  lemma {:induction false} TrimEndOf(core: string, after: string)
    requires Blank(after) && (core != "" ==> !IsWhitespace(core[|core| - 1]))
    ensures TrimEnd(core + after) == core
    decreases |after|
  {
    hide IsWhitespace;
    if after == "" {
      assert core + after == core;
    } else {
      assert (core + after)[..|core + after| - 1] == core + after[..|after| - 1];
      TrimEndOf(core, after[..|after| - 1]);
    }
  }

  /** And nothing else does: what is tight between blanks is what trimming leaves. */
  lemma TrimOf(before: string, core: string, after: string)
    requires Blank(before) && Blank(after) && Tight(core)
    ensures Trim(before + core + after) == core
  {
    hide IsWhitespace, TrimStart, TrimEnd;
    if core == "" {
      var blank := before + core + after;
      assert Blank(blank);
      TrimStartOf(blank, "");
      assert blank + "" == blank;
      TrimEndOf("", "");
    } else {
      assert before + core + after == before + (core + after);
      TrimStartOf(before, core + after);
      TrimEndOf(core, after);
    }
  }

  /** Between blanks, whatever is no white space is inside. */
  lemma OutsideIsBlank(before: string, core: string, after: string)
    requires Blank(before) && Blank(after)
    ensures var value := before + core + after;
            forall k | 0 <= k < |value| && !(|before| <= k < |before| + |core|) :: IsWhitespace(value[k])
  {
    hide IsWhitespace;
  }

  // ----- Letters in either case

  /** `s` is `lower` with any of its letters in the other case. */
  predicate CaseOf(s: string, lower: string) {
    && |s| == |lower|
    && forall i | 0 <= i < |s| ::
         s[i] == lower[i] || ('a' <= lower[i] <= 'z' && s[i] as int + 32 == lower[i] as int)
  }

  predicate IsLower(s: string) {
    forall i | 0 <= i < |s| :: !('A' <= s[i] <= 'Z')
  }

  lemma LowerExactly(s: string, lower: string)
    requires IsLower(lower)
    ensures ToAsciiLower(s) == lower <==> CaseOf(s, lower)
    ensures EqIgnoreAsciiCase(s, lower) <==> CaseOf(s, lower)
  {
    assert ToAsciiLower(lower) == lower;
    if CaseOf(s, lower) {
      assert ToAsciiLower(s) == lower;
    }
    if ToAsciiLower(s) == lower {
      forall i | 0 <= i < |s|
        ensures s[i] == lower[i] || ('a' <= lower[i] <= 'z' && s[i] as int + 32 == lower[i] as int)
      {
        assert ToAsciiLower(s)[i] == lower[i];
      }
    }
  }

  // ----- Splitting

  function JoinBy(pieces: seq<string>, pattern: string): string {
    if pieces == [] then "" else if |pieces| == 1 then pieces[0] else pieces[0] + pattern + JoinBy(pieces[1..], pattern)
  }

  /** The pieces have the pattern nowhere in them, and with it in between they are the text. */
  lemma {:induction false} SplitPieces(s: string, pattern: string)
    requires pattern != ""
    ensures JoinBy(Split(s, pattern), pattern) == s
    ensures forall i | 0 <= i < |Split(s, pattern)| :: !Occurs(Split(s, pattern)[i], pattern)
    decreases |s|
  {
    hide Occurs;
    match Find(s, pattern)
    case None =>
    case Some(i) =>
      var rest := s[i + |pattern|..];
      SplitPieces(rest, pattern);
      NotBefore(s, pattern, i);
      var pieces := Split(s, pattern);
      assert pieces[1..] == Split(rest, pattern) && |pieces| > 1;
      assert s == s[..i] + pattern + rest by { assert s[i..i + |pattern|] == pattern; }
      assert JoinBy(pieces, pattern) == s[..i] + pattern + JoinBy(pieces[1..], pattern);
  }

  lemma NotBefore(s: string, pattern: string, i: nat)
    requires pattern != "" && Find(s, pattern) == Some(i)
    ensures !Occurs(s[..i], pattern)
  {
    if k: nat :| k <= i && MatchesAt(s[..i], pattern, k) {
      assert s[k..k + |pattern|] == s[..i][k..k + |pattern|];
      assert MatchesAt(s, pattern, k);
    }
  }

  lemma SplitCons(piece: string, rest: string, pattern: string)
    requires pattern != "" && Find(piece + pattern + rest, pattern) == Some(|piece|)
    ensures Split(piece + pattern + rest, pattern) == [piece] + Split(rest, pattern)
  {
    var s := piece + pattern + rest;
    assert s[..|piece|] == piece && s[|piece| + |pattern|..] == rest;
  }

  /** A one-character pattern is first found after a piece without it. */
  lemma FirstCharacter(piece: string, c: char, rest: string)
    requires c !in piece
    ensures Find(piece + [c] + rest, [c]) == Some(|piece|) && !Occurs(piece, [c])
  {
    var s := piece + [c] + rest;
    assert s[|piece|..|piece| + 1] == [c];
    assert MatchesAt(s, [c], |piece|);
    forall k: nat | k < |piece| ensures !MatchesAt(s, [c], k) {
      assert s[k..k + 1] == [piece[k]] && piece[k] in piece;
    }
    forall k: nat | k <= |piece| ensures !MatchesAt(piece, [c], k) {
      if k < |piece| {
        assert piece[k..k + 1] == [piece[k]] && piece[k] in piece;
      }
    }
  }

  // ----- Numbers in decimal

  predicate AllDigits(s: string) {
    forall i | 0 <= i < |s| :: '0' <= s[i] <= '9'
  }

  function DecimalValue(s: string): nat
    requires AllDigits(s)
  {
    if s == "" then 0 else DecimalValue(s[..|s| - 1]) * 10 + (s[|s| - 1] as int - 48)
  }

  /** `s` spells `n`: decimal digits, at least one, leading zeros allowed, and perhaps a plus sign in front. */
  ghost predicate Spells(s: string, n: nat) {
    exists digits | digits != "" && AllDigits(digits) && DecimalValue(digits) == n :: s == digits || s == "+" + digits
  }

  function DecimalDigit(d: nat): (c: char)
    requires d < 10
    ensures '0' <= c <= '9' && c as int - 48 == d
  {
    (d + 48) as char
  }

  /** The number as it is usually printed. */
  function DecimalText(n: nat): (s: string)
    ensures s != "" && AllDigits(s)
  {
    if n < 10 then [DecimalDigit(n)] else DecimalText(n / 10) + [DecimalDigit(n % 10)]
  }

  lemma {:induction false} DecimalTextSpells(n: nat)
    ensures DecimalValue(DecimalText(n)) == n && Spells(DecimalText(n), n)
  {
    var s := DecimalText(n);
    if n < 10 {
      assert s[..0] == "";
    } else {
      DecimalTextSpells(n / 10);
      assert s[..|s| - 1] == DecimalText(n / 10);
    }
  }

  lemma {:induction false} DigitsExactly(s: string, n: nat)
    ensures DigitsValue(s, 10) == Some(n) <==> AllDigits(s) && DecimalValue(s) == n
    decreases |s|
  {
    if s != "" {
      var init, last := s[..|s| - 1], s[|s| - 1];
      if DigitsValue(init, 10).Some? {
        DigitsExactly(init, DigitsValue(init, 10).value);
      }
      if AllDigits(s) {
        assert AllDigits(init);
        DigitsExactly(init, DecimalValue(init));
      }
    }
  }

  /** Parsing in decimal reads exactly the spellings of numbers up to the limit. */
  lemma ParseDecimalExactly(s: string, max: nat, n: nat)
    ensures ParseUnsigned(s, 10, max) == Some(n) <==> Spells(s, n) && n <= max
  {
    hide DigitsValue;
    var digits := if s != "" && s[0] == '+' then s[1..] else s;
    DigitsExactly(digits, n);
    if ParseUnsigned(s, 10, max) == Some(n) {
      assert s == digits || s == "+" + digits;
    }
    if Spells(s, n) {
      var d :| d != "" && AllDigits(d) && DecimalValue(d) == n && (s == d || s == "+" + d);
      assert d[0] != '+' && digits == d;
    }
  }

  // ----- Numbers in hexadecimal

  /** The digit's value, by the character's code: `0` to `9`, `A` to `F`, `a` to `f`. */
  predicate IsHexDigit(c: char, d: int) {
    || (48 <= c as int <= 57 && d == c as int - 48)
    || (65 <= c as int <= 70 && d == c as int - 55)
    || (97 <= c as int <= 102 && d == c as int - 87)
  }

  /** The text is digits of this value, the first one highest. */
  ghost predicate HexDigits(s: string, n: nat) {
    if s == "" then n == 0
    else HexDigits(s[..|s| - 1], n / 16) && IsHexDigit(s[|s| - 1], n % 16)
  }

  /** `s` spells `n` in hexadecimal: digits, leading zeros allowed, and perhaps a plus sign in front. */
  ghost predicate SpellsHex(s: string, n: nat) {
    exists digits | digits != "" && HexDigits(digits, n) :: s == digits || s == "+" + digits
  }

  lemma {:induction false} HexDigitsExactly(s: string, n: nat)
    ensures DigitsValue(s, 16) == Some(n) <==> HexDigits(s, n)
    decreases |s|
  {
    if s != "" {
      HexDigitsExactly(s[..|s| - 1], n / 16);
      HexDigitExactly(s[|s| - 1], n % 16);
      SixteenParts(s, n);
    }
  }

  lemma HexDigitExactly(c: char, d: nat)
    ensures DigitValue(c) == Some(d) && d < 16 <==> IsHexDigit(c, d)
  {
  }

  lemma SixteenParts(s: string, n: nat)
    requires s != ""
    ensures DigitsValue(s, 16) == Some(n) <==>
            DigitsValue(s[..|s| - 1], 16) == Some(n / 16) && DigitValue(s[|s| - 1]) == Some(n % 16)
  {
    hide DigitValue;
  }

  /** Parsing in hexadecimal reads exactly the spellings of numbers up to the limit. */
  lemma ParseHexExactly(s: string, max: nat, n: nat)
    ensures ParseUnsigned(s, 16, max) == Some(n) <==> SpellsHex(s, n) && n <= max
  {
    hide DigitsValue, HexDigits;
    var digits := if s != "" && s[0] == '+' then s[1..] else s;
    HexDigitsExactly(digits, n);
    if ParseUnsigned(s, 16, max) == Some(n) {
      assert s == digits || s == "+" + digits;
    }
    if SpellsHex(s, n) {
      var d :| d != "" && HexDigits(d, n) && (s == d || s == "+" + d);
      HexCharacters(d, n);
      assert d[0] in d;
      assert digits == d;
    }
  }

  /** Digits are no signs, blanks or semicolons. */
  lemma {:induction false} HexCharacters(s: string, n: nat)
    requires HexDigits(s, n)
    ensures forall c | c in s :: c != '+' && c != ';' && !IsWhitespace(c)
    decreases |s|
  {
    if s != "" {
      HexCharacters(s[..|s| - 1], n / 16);
      forall c | c in s ensures c != '+' && c != ';' && !IsWhitespace(c) {
        assert c in s[..|s| - 1] || c == s[|s| - 1];
      }
    }
  }
}

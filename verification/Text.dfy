/** The standard-library string operations the repository's scanners and parsers are written with. */
module Text {
  import opened Wrappers

  /** Whether `pattern` occurs in `s` starting at position `i`. */
  predicate MatchesAt<T(==)>(s: seq<T>, pattern: seq<T>, i: nat) {
    i + |pattern| <= |s| && s[i..i + |pattern|] == pattern
  }

  predicate Occurs<T(==)>(s: seq<T>, pattern: seq<T>) {
    exists i: nat | i <= |s| :: MatchesAt(s, pattern, i)
  }

  /** The first position at or after `from` where `pattern` occurs. */
  function FindFrom<T(==)>(s: seq<T>, pattern: seq<T>, from: nat): (r: Option<nat>)
    ensures r.Some? ==> from <= r.value && MatchesAt(s, pattern, r.value)
    ensures forall j: nat {:trigger MatchesAt(s, pattern, j)} ::
              from <= j && MatchesAt(s, pattern, j) ==> r.Some? && r.value <= j
    decreases |s| - from
  {
    if from + |pattern| > |s| then None
    else if MatchesAt(s, pattern, from) then Some(from)
    else FindFrom(s, pattern, from + 1)
  }

  /** `windows(n).position(..)` and `str::find`: the first occurrence. */
  function Find<T(==)>(s: seq<T>, pattern: seq<T>): (r: Option<nat>)
    ensures r.Some? ==> MatchesAt(s, pattern, r.value)
    ensures forall j: nat {:trigger MatchesAt(s, pattern, j)} ::
              MatchesAt(s, pattern, j) ==> r.Some? && r.value <= j
    ensures r.Some? <==> Occurs(s, pattern)
  {
    FindFrom(s, pattern, 0)
  }

  /** An occurrence inside a prefix of `s` is found at the same place in `s`. */
  lemma FindInPrefix<T>(prefix: seq<T>, rest: seq<T>, pattern: seq<T>)
    requires Find(prefix, pattern).Some?
    ensures Find(prefix + rest, pattern) == Find(prefix, pattern)
  {
    var i := Find(prefix, pattern).value;
    assert (prefix + rest)[i..i + |pattern|] == prefix[i..i + |pattern|];
    assert MatchesAt(prefix + rest, pattern, i);
    var j := Find(prefix + rest, pattern).value;
    assert j <= i;
    assert (prefix + rest)[j..j + |pattern|] == prefix[j..j + |pattern|];
    assert MatchesAt(prefix, pattern, j);
  }

  lemma Regroup<T>(a: seq<T>, b: seq<T>, c: seq<T>)
    ensures a + (b + c) == a + b + c
  {
  }

  /** `str::split`: the pieces between successive occurrences. */
  function Split(s: string, pattern: string): (pieces: seq<string>)
    requires pattern != ""
    ensures pieces != []
    decreases |s|
  {
    match Find(s, pattern)
    case None => [s]
    case Some(i) => [s[..i]] + Split(s[i + |pattern|..], pattern)
  }

  predicate StartsWith(s: string, prefix: string) {
    prefix <= s
  }

  predicate EndsWith(s: string, suffix: string) {
    |suffix| <= |s| && s[|s| - |suffix|..] == suffix
  }

  /** The characters of Unicode's `White_Space` property, which `str::trim` removes. */
  predicate IsWhitespace(c: char) {
    || '\t' <= c <= '\r'
    || c == ' '
    || c == '\U{85}'
    || c == '\U{A0}'
    || c == '\U{1680}'
    || '\U{2000}' <= c <= '\U{200A}'
    || c == '\U{2028}'
    || c == '\U{2029}'
    || c == '\U{202F}'
    || c == '\U{205F}'
    || c == '\U{3000}'
  }

  function TrimStart(s: string): (t: string)
    ensures |t| <= |s|
  {
    if s != "" && IsWhitespace(s[0]) then TrimStart(s[1..]) else s
  }

  function TrimEnd(s: string): (t: string)
    ensures |t| <= |s|
  {
    if s != "" && IsWhitespace(s[|s| - 1]) then TrimEnd(s[..|s| - 1]) else s
  }

  function Trim(s: string): (t: string)
    ensures |t| <= |s|
  {
    TrimEnd(TrimStart(s))
  }

  function AsciiLower(c: char): char {
    if 'A' <= c <= 'Z' then (c as int + 32) as char else c
  }

  /** `str::to_ascii_lowercase`. */
  function ToAsciiLower(s: string): (t: string)
    ensures |t| == |s|
  {
    seq(|s|, i requires 0 <= i < |s| => AsciiLower(s[i]))
  }

  predicate EqIgnoreAsciiCase(a: string, b: string) {
    ToAsciiLower(a) == ToAsciiLower(b)
  }

  /** `char::to_digit` for the radices used here. */
  function DigitValue(c: char): Option<nat> {
    if '0' <= c <= '9' then Some(c as int - '0' as int)
    else if 'a' <= c <= 'f' then Some(c as int - 'a' as int + 10)
    else if 'A' <= c <= 'F' then Some(c as int - 'A' as int + 10)
    else None
  }

  /** The value of a run of digits, or `None` on a character that is not one. */
  function DigitsValue(s: string, radix: nat): Option<nat> {
    if s == "" then Some(0)
    else
      match (DigitsValue(s[..|s| - 1], radix), DigitValue(s[|s| - 1]))
      case (Some(high), Some(low)) => if low < radix then Some(high * radix + low) else None
      case _ => None
  }

  /** `from_str_radix` on an unsigned type: an optional `+`, at least one digit, no overflow. */
  function ParseUnsigned(s: string, radix: nat, max: nat): (r: Option<nat>)
    ensures r.Some? ==> r.value <= max
  {
    var digits := if s != "" && s[0] == '+' then s[1..] else s;
    if digits == "" then None
    else
      match DigitsValue(digits, radix)
      case Some(n) => if n <= max then Some(n) else None
      case None => None
  }
}

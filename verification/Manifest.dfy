/** The release bump's manifest rewriter, and what bumping there and back restores. */
module Manifest {
  import opened Wrappers
  import opened Text

  // ----- Lines

  function StripCr(line: string): string {
    if line != "" && line[|line| - 1] == '\r' then line[..|line| - 1] else line
  }

  /** `str::lines`: a final newline ends the last line, and a carriage return before a newline goes with it. */
  function Lines(text: string): seq<string>
    decreases |text|
  {
    if text == "" then []
    else
      match Find(text, "\n")
      case None => [text]
      case Some(i) => [StripCr(text[..i])] + Lines(text[i + 1..])
  }

  function Join(lines: seq<string>): string {
    if lines == [] then ""
    else if |lines| == 1 then lines[0]
    else lines[0] + "\n" + Join(lines[1..])
  }

  /** The lines put back together, with the final newline the text had. */
  function Rejoin(text: string, lines: seq<string>): string {
    Join(lines) + if EndsWith(text, "\n") then "\n" else ""
  }

  // ----- Replacing

  /** `str::replace`: leftmost occurrences, none overlapping. */
  function Replace(s: string, from: string, to: string): string
    requires from != ""
    decreases |s|
  {
    if s == "" then ""
    else if from <= s then to + Replace(s[|from|..], from, to)
    else [s[0]] + Replace(s[1..], from, to)
  }

  /** A version between double quotes, as the manifest spells it. */
  function Quoted(version: string): (q: string)
    ensures q != ""
  {
    "\"" + version + "\""
  }

  // ----- The bump

  const WORKSPACE_PACKAGE: string := "[workspace.package]"

  predicate IsHeader(trimmed: string) {
    StartsWith(trimmed, "[") && EndsWith(trimmed, "]")
  }

  function TableAfter(table: string, line: string): string {
    if IsHeader(Trim(line)) then Trim(line) else table
  }

  datatype Kind = Pin | PackageVersion | Unchanged

  function KindOf(table: string, line: string, from: string): Kind {
    var trimmed := Trim(line);
    if Find(line, Quoted("=" + from)).Some? then Pin
    else if table == WORKSPACE_PACKAGE && StartsWith(trimmed, "version") && Find(trimmed, Quoted(from)).Some?
    then PackageVersion
    else Unchanged
  }

  function BumpLine(table: string, line: string, from: string, to: string): string {
    match KindOf(table, line, from)
    case Pin => Replace(line, Quoted("=" + from), Quoted("=" + to))
    case PackageVersion => Replace(line, Quoted(from), Quoted(to))
    case Unchanged => line
  }

  /** The rewritten lines below a line that left `table` in force. */
  function BumpLines(table: string, lines: seq<string>, from: string, to: string): (bumped: seq<string>)
    ensures |bumped| == |lines|
    decreases |lines|
  {
    if lines == [] then []
    else
      var here := TableAfter(table, lines[0]);
      [BumpLine(here, lines[0], from, to)] + BumpLines(here, lines[1..], from, to)
  }

  datatype Change = Change(number: nat, kind: Kind)

  /** The changed lines, by number, below a line numbered `above`. */
  function ChangesIn(table: string, lines: seq<string>, from: string, above: nat): seq<Change>
    decreases |lines|
  {
    if lines == [] then []
    else
      var here := TableAfter(table, lines[0]);
      var kind := KindOf(here, lines[0], from);
      (if kind == Unchanged then [] else [Change(above + 1, kind)]) + ChangesIn(here, lines[1..], from, above + 1)
  }

  function Bumped(text: string, from: string, to: string): string {
    Rejoin(text, BumpLines("", Lines(text), from, to))
  }

  method BumpManifest(text: string, from: string, to: string) returns (rewritten: string, changes: seq<Change>)
    ensures rewritten == Bumped(text, from, to)
    ensures changes == ChangesIn("", Lines(text), from, 0)
  {
    hide TableAfter, KindOf, BumpLine;
    var table := "";
    var out: seq<string> := [];
    changes := [];
    var lines := Lines(text);
    assert lines[0..] == lines;
    for number := 0 to |lines|
      invariant out + BumpLines(table, lines[number..], from, to) == BumpLines("", lines, from, to)
      invariant changes + ChangesIn(table, lines[number..], from, number) == ChangesIn("", lines, from, 0)
    {
      var line := lines[number];
      assert lines[number..][0] == line && lines[number..][1..] == lines[number + 1..];
      table := TableAfter(table, line);
      ghost var rest, more := BumpLines(table, lines[number + 1..], from, to), ChangesIn(table, lines[number + 1..], from, number + 1);
      var kind := KindOf(table, line, from);
      assert out + ([BumpLine(table, line, from, to)] + rest) == out + [BumpLine(table, line, from, to)] + rest;
      assert changes + ([Change(number + 1, kind)] + more) == changes + [Change(number + 1, kind)] + more;
      assert changes + ([] + more) == changes + more;
      if kind != Unchanged {
        changes := changes + [Change(number + 1, kind)];
      }
      out := out + [BumpLine(table, line, from, to)];
    }
    assert out + [] == out && changes + [] == changes;
    rewritten := Rejoin(text, out);
  }

  // ----- Replacing one quoted text by another

  lemma QuotedHead(x: string, s: string)
    ensures Quoted(x) <= s ==> s != "" && s[0] == '"' && s[1..|x| + 1] == x && s[|x| + 1] == '"'
    ensures |Quoted(x)| == |x| + 2
  {
    if Quoted(x) <= s {
      assert s[..|x| + 2] == Quoted(x);
      assert Quoted(x)[1..|x| + 1] == x;
      assert s[1..|x| + 1] == s[..|x| + 2][1..|x| + 1];
    }
  }

  lemma QuotedPrefix(x: string, s: string)
    requires s != "" && s[0] == '"' && x + "\"" <= s[1..]
    ensures Quoted(x) <= s
  {
    assert s == [s[0]] + s[1..];
    assert s[1..][..|x| + 1] == x + "\"";
    assert s[..|x| + 2] == [s[0]] + s[1..][..|x| + 1];
  }

  /** Up to the first quote, replacing changes nothing. */
  lemma {:induction false} SamePrefixToQuote(w: string, u: string, a: string, b: string)
    requires '"' !in w
    ensures w + "\"" <= Replace(u, Quoted(a), Quoted(b)) <==> w + "\"" <= u
    ensures w <= Replace(u, Quoted(a), Quoted(b)) <==> w <= u
    decreases |w|
  {
    var r := Replace(u, Quoted(a), Quoted(b));
    if u != "" {
      if Quoted(a) <= u {
        QuotedHead(a, u);
        assert r[0] == '"' && u[0] == '"';
        assert w != "" ==> w[0] != '"';
        assert w == "" ==> (w + "\"" <= r && w + "\"" <= u);
        assert w != "" ==> (w + "\"")[0] == w[0];
      } else {
        var rest := Replace(u[1..], Quoted(a), Quoted(b));
        assert r == [u[0]] + rest && r[1..] == rest;
        if w != "" {
          SamePrefixToQuote(w[1..], u[1..], a, b);
          PrefixStep(w[0], w[1..], r);
          PrefixStep(w[0], w[1..], u);
          assert w == [w[0]] + w[1..];
        }
      }
    }
  }

  lemma PrefixStep(c: char, w: string, s: string)
    requires s != ""
    ensures [c] + w <= s <==> s[0] == c && w <= s[1..]
    ensures [c] + w + "\"" <= s <==> s[0] == c && w + "\"" <= s[1..]
  {
    assert s == [s[0]] + s[1..];
    assert [c] + w + "\"" == [c] + (w + "\"");
    PrefixOfCons(c, w, s);
    PrefixOfCons(c, w + "\"", s);
  }

  lemma PrefixOfCons(c: char, w: string, s: string)
    requires s != ""
    ensures [c] + w <= s <==> s[0] == c && w <= s[1..]
  {
    if [c] + w <= s {
      assert ([c] + w)[1..] == w;
      assert s[..|w| + 1][1..] == s[1..][..|w|];
    }
    if s[0] == c && w <= s[1..] {
      assert s[..|w| + 1] == [s[0]] + s[1..][..|w|];
    }
  }

  lemma NotMadeHere(s: string, a: string, b: string)
    requires s != "" && '"' !in b && !Occurs(s, Quoted(b))
    ensures !(Quoted(b) <= [s[0]] + Replace(s[1..], Quoted(a), Quoted(b)))
  {
    var r := Replace(s[1..], Quoted(a), Quoted(b));
    if Quoted(b) <= [s[0]] + r {
      QuotedHead(b, [s[0]] + r);
      assert "\"" + r == [s[0]] + r;
      UnquotedPrefix(b, r);
      SamePrefixToQuote(b, s[1..], a, b);
      QuotedPrefix(b, s);
      PrefixOccurs(s, Quoted(b));
    }
  }

  /** Going back replaces exactly what was put in, when it was not there before. */
  lemma {:induction false} ReplaceBack(s: string, a: string, b: string)
    requires '"' !in b && !Occurs(s, Quoted(b))
    ensures Replace(Replace(s, Quoted(a), Quoted(b)), Quoted(b), Quoted(a)) == s
    decreases |s|
  {
    if s != "" {
      if Quoted(a) <= s {
        var rest := s[|Quoted(a)|..];
        OccursInSuffix(s, |Quoted(a)|, Quoted(b));
        ReplaceBack(rest, a, b);
        var r := Replace(rest, Quoted(a), Quoted(b));
        assert (Quoted(b) + r)[|Quoted(b)|..] == r;
        assert s == Quoted(a) + rest;
      } else {
        var u := s[1..];
        OccursInSuffix(s, 1, Quoted(b));
        ReplaceBack(u, a, b);
        var r := Replace(u, Quoted(a), Quoted(b));
        var t := [s[0]] + r;
        assert t[1..] == r;
        NotMadeHere(s, a, b);
        assert s == [s[0]] + u;
      }
    }
  }

  lemma PrefixOccurs(s: string, pattern: string)
    requires pattern <= s
    ensures Occurs(s, pattern)
  {
    assert MatchesAt(s, pattern, 0);
  }

  lemma OccursInSuffix(s: string, k: nat, pattern: string)
    requires k <= |s|
    ensures Occurs(s[k..], pattern) ==> Occurs(s, pattern)
  {
    if i: nat :| i <= |s[k..]| && MatchesAt(s[k..], pattern, i) {
      assert s[k + i..k + i + |pattern|] == s[k..][i..i + |pattern|];
      assert MatchesAt(s, pattern, k + i);
    }
  }

  lemma OccursShifts(s: string, before: string, pattern: string)
    requires Occurs(s, pattern)
    ensures Occurs(before + s, pattern)
  {
    assert (before + s)[|before|..] == s;
    OccursInSuffix(before + s, |before|, pattern);
  }

  /** An occurrence is at the front or further on. */
  lemma OccursSplit(s: string, pattern: string)
    requires s != "" && Occurs(s, pattern) && !(pattern <= s)
    ensures Occurs(s[1..], pattern)
  {
    var i: nat :| i <= |s| && MatchesAt(s, pattern, i);
    assert i > 0;
    assert s[1..][i - 1..i - 1 + |pattern|] == s[i..i + |pattern|];
    assert MatchesAt(s[1..], pattern, i - 1);
  }

  /** Where the old text stood, the new one stands. */
  lemma {:induction false} ReplacedOccurs(s: string, a: string, b: string)
    requires Occurs(s, Quoted(a))
    ensures Occurs(Replace(s, Quoted(a), Quoted(b)), Quoted(b))
    decreases |s|
  {
    if Quoted(a) <= s {
      PrefixOccurs(Quoted(b) + Replace(s[|Quoted(a)|..], Quoted(a), Quoted(b)), Quoted(b));
    } else {
      OccursSplit(s, Quoted(a));
      ReplacedOccurs(s[1..], a, b);
      OccursShifts(Replace(s[1..], Quoted(a), Quoted(b)), [s[0]], Quoted(b));
    }
  }

  /** Replacing brings in no quoted text but the new one. */
  lemma {:induction false} NothingElseAppears(s: string, a: string, b: string, x: string)
    requires '"' !in b && '"' !in x && x != b
    requires Occurs(Replace(s, Quoted(a), Quoted(b)), Quoted(x))
    ensures Occurs(s, Quoted(x))
    decreases |s|
  {
    var r := Replace(s, Quoted(a), Quoted(b));
    if s == "" {
    } else if Quoted(a) <= s {
      var rest := s[|Quoted(a)|..];
      var r' := Replace(rest, Quoted(a), Quoted(b));
      if Occurs(r', Quoted(x)) {
        NothingElseAppears(rest, a, b, x);
        OccursInSuffix(s, |Quoted(a)|, Quoted(x));
      } else {
        AtTheSeam(r', b, x);
        SamePrefixToQuote(x, rest, a, b);
        var k := |Quoted(a)| - 1;
        QuotedHead(a, s);
        assert s[k..][1..] == rest && s[k..][0] == '"';
        QuotedPrefix(x, s[k..]);
        PrefixOccurs(s[k..], Quoted(x));
        OccursInSuffix(s, k, Quoted(x));
      }
    } else {
      var u := s[1..];
      var r' := Replace(u, Quoted(a), Quoted(b));
      assert r == [s[0]] + r' && r[1..] == r';
      if Quoted(x) <= r {
        QuotedHead(x, r);
        assert r'[..|x| + 1] == x + "\"" by { assert r[..|x| + 2] == Quoted(x); }
        SamePrefixToQuote(x, u, a, b);
        QuotedPrefix(x, s);
        PrefixOccurs(s, Quoted(x));
      } else {
        OccursSplit(r, Quoted(x));
        NothingElseAppears(u, a, b, x);
        OccursInSuffix(s, 1, Quoted(x));
      }
    }
  }

  /** One text starts with at most one quoted text. */
  lemma QuotedUnique(s: string, b: string, x: string)
    requires '"' !in b && '"' !in x && Quoted(b) <= s && Quoted(x) <= s
    ensures b == x
  {
    QuotedHead(b, s);
    QuotedHead(x, s);
    assert forall k | 0 <= k < |b| :: s[k + 1] == b[k] && b[k] in b;
    assert forall k | 0 <= k < |x| :: s[k + 1] == x[k] && x[k] in x;
    assert s[|b| + 1] == '"' && s[|x| + 1] == '"';
    assert |b| == |x|;
  }

  /** Another quoted text does not start inside a quoted text. */
  lemma NotInside(s: string, b: string, x: string, i: nat)
    requires '"' !in b && '"' !in x && x != b
    requires Quoted(b) <= s && MatchesAt(s, Quoted(x), i)
    ensures i > |b|
  {
    QuotedHead(b, s);
    QuotedHead(x, s[i..]);
    assert Quoted(x) <= s[i..];
    assert s[i] == '"';
    assert forall k | 0 < k <= |b| :: s[k] == b[k - 1] && b[k - 1] in b;
    if i == 0 {
      assert s[0..] == s;
      QuotedUnique(s, b, x);
    }
  }

  /** So after a quoted text it can only start at the closing quote, or later. */
  lemma AtTheSeam(r: string, b: string, x: string)
    requires '"' !in b && '"' !in x && x != b
    requires Occurs(Quoted(b) + r, Quoted(x)) && !Occurs(r, Quoted(x))
    ensures x + "\"" <= r
  {
    var s := Quoted(b) + r;
    var i: nat :| i <= |s| && MatchesAt(s, Quoted(x), i);
    NotInside(s, b, x, i);
    var k := i - |b| - 1;
    assert Quoted(x) <= s[i..];
    if k > 0 {
      assert s[i..] == r[k - 1..];
      PrefixOccurs(r[k - 1..], Quoted(x));
      OccursInSuffix(r, k - 1, Quoted(x));
    }
    ClosingQuote(s, b, r, i);
    UnquotedPrefix(x, r);
  }

  lemma ClosingQuote(s: string, b: string, r: string, i: nat)
    requires s == Quoted(b) + r && i == |b| + 1
    ensures s[i..] == "\"" + r
  {
  }

  lemma UnquotedPrefix(x: string, r: string)
    requires Quoted(x) <= "\"" + r
    ensures x + "\"" <= r
  {
    var s := "\"" + r;
    assert s[1..] == r;
    assert Quoted(x) == s[..|x| + 2];
    assert Quoted(x)[1..] == x + "\"";
  }

  // ----- Replacing keeps a line's shape

  lemma {:induction false} ReplaceAfterPlain(w: string, r: string, a: string, b: string)
    requires '"' !in w
    ensures Replace(w + r, Quoted(a), Quoted(b)) == w + Replace(r, Quoted(a), Quoted(b))
  {
    if w == "" {
      assert w + r == r;
    } else {
      var s := w + r;
      assert s[1..] == w[1..] + r && s[0] == w[0] && w[0] in w;
      QuotedHead(a, s);
      ReplaceAfterPlain(w[1..], r, a, b);
      Regroup([w[0]], w[1..], Replace(r, Quoted(a), Quoted(b)));
      assert w == [w[0]] + w[1..];
    }
  }

  lemma PrefixExtends(p: string, s: string, w: char)
    ensures p <= s ==> p <= s + [w]
  {
  }

  lemma {:induction false} ReplaceBeforePlain(s: string, w: char, a: string, b: string)
    requires w != '"'
    ensures Replace(s + [w], Quoted(a), Quoted(b)) == Replace(s, Quoted(a), Quoted(b)) + [w]
    decreases |s|
  {
    var t := s + [w];
    if s == "" {
      QuotedHead(a, t);
    } else {
      QuotedHead(a, t);
      if Quoted(a) <= t {
        assert t[|a| + 1] == '"';
        assert |Quoted(a)| <= |s| && s == t[..|s|];
        assert Quoted(a) <= s;
        assert t[|Quoted(a)|..] == s[|Quoted(a)|..] + [w];
        ReplaceBeforePlain(s[|Quoted(a)|..], w, a, b);
      } else {
        PrefixExtends(Quoted(a), s, w);
        assert t[1..] == s[1..] + [w];
        ReplaceBeforePlain(s[1..], w, a, b);
      }
    }
  }

  lemma {:induction false} TrimStartReplace(s: string, a: string, b: string)
    ensures TrimStart(Replace(s, Quoted(a), Quoted(b))) == Replace(TrimStart(s), Quoted(a), Quoted(b))
  {
    if s != "" {
      if IsWhitespace(s[0]) {
        assert s == [s[0]] + s[1..];
        ReplaceAfterPlain([s[0]], s[1..], a, b);
        TrimStartReplace(s[1..], a, b);
        var r := Replace(s[1..], Quoted(a), Quoted(b));
        assert ([s[0]] + r)[1..] == r;
      } else {
        FirstStays(s, a, b);
      }
    }
  }

  lemma FirstStays(s: string, a: string, b: string)
    requires s != ""
    ensures Replace(s, Quoted(a), Quoted(b)) != "" && Replace(s, Quoted(a), Quoted(b))[0] == s[0]
  {
    QuotedHead(a, s);
  }

  /** The last character stays too: it is copied, or is the quote that ends a replaced text. */
  lemma {:induction false} LastStays(s: string, a: string, b: string)
    requires s != ""
    ensures var r := Replace(s, Quoted(a), Quoted(b)); r != "" && r[|r| - 1] == s[|s| - 1]
    decreases |s|
  {
    var r := Replace(s, Quoted(a), Quoted(b));
    QuotedHead(a, s);
    if Quoted(a) <= s {
      var rest := s[|Quoted(a)|..];
      if rest != "" {
        LastStays(rest, a, b);
      } else {
        assert Replace(rest, Quoted(a), Quoted(b)) == "" && r == Quoted(b) + "";
        assert Quoted(b)[|b| + 1] == '"';
      }
    } else if s[1..] != "" {
      LastStays(s[1..], a, b);
    }
  }

  lemma {:induction false} TrimEndReplace(s: string, a: string, b: string)
    ensures TrimEnd(Replace(s, Quoted(a), Quoted(b))) == Replace(TrimEnd(s), Quoted(a), Quoted(b))
    decreases |s|
  {
    if s != "" {
      var init, last := s[..|s| - 1], s[|s| - 1];
      if IsWhitespace(last) {
        assert s == init + [last];
        ReplaceBeforePlain(init, last, a, b);
        TrimEndReplace(init, a, b);
        var r := Replace(init, Quoted(a), Quoted(b));
        assert (r + [last])[..|r|] == r;
      } else {
        LastStays(s, a, b);
      }
    }
  }

  lemma TrimReplace(s: string, a: string, b: string)
    ensures Trim(Replace(s, Quoted(a), Quoted(b))) == Replace(Trim(s), Quoted(a), Quoted(b))
  {
    TrimStartReplace(s, a, b);
    TrimEndReplace(TrimStart(s), a, b);
  }

  lemma HeaderReplace(t: string, a: string, b: string)
    ensures IsHeader(Replace(t, Quoted(a), Quoted(b))) <==> IsHeader(t)
    ensures Replace(t, Quoted(a), Quoted(b)) == WORKSPACE_PACKAGE <==> t == WORKSPACE_PACKAGE
  {
    if t != "" {
      var r := Replace(t, Quoted(a), Quoted(b));
      FirstStays(t, a, b);
      LastStays(t, a, b);
      assert EndsWith(t, "]") <==> t[|t| - 1] == ']';
      assert EndsWith(r, "]") <==> r[|r| - 1] == ']';
      PlainStays(WORKSPACE_PACKAGE, t, a, b);
    }
  }

  lemma PlainStays(w: string, t: string, a: string, b: string)
    requires '"' !in w
    ensures Replace(t, Quoted(a), Quoted(b)) == w <==> t == w
  {
    var r := Replace(t, Quoted(a), Quoted(b));
    SamePrefixToQuote(w, t, a, b);
    if w <= t {
      var rest := t[|w|..];
      assert t == w + rest;
      ReplaceAfterPlain(w, rest, a, b);
      if rest != "" {
        FirstStays(rest, a, b);
      }
    }
  }

  /** A replaced line is a header, and the workspace package's, exactly when it was. */
  lemma TableReplace(t1: string, t2: string, line: string, a: string, b: string)
    requires t1 == WORKSPACE_PACKAGE <==> t2 == WORKSPACE_PACKAGE
    ensures TableAfter(t1, line) == WORKSPACE_PACKAGE <==>
            TableAfter(t2, Replace(line, Quoted(a), Quoted(b))) == WORKSPACE_PACKAGE
  {
    TrimReplace(line, a, b);
    HeaderReplace(Trim(line), a, b);
  }

  // ----- There and back, line by line

  lemma {:induction false} TrimStartIsSuffix(s: string)
    ensures TrimStart(s) == s[|s| - |TrimStart(s)|..]
  {
    if s != "" && IsWhitespace(s[0]) {
      TrimStartIsSuffix(s[1..]);
    }
  }

  lemma {:induction false} TrimEndIsPrefix(s: string)
    ensures TrimEnd(s) == s[..|TrimEnd(s)|]
  {
    if s != "" && IsWhitespace(s[|s| - 1]) {
      TrimEndIsPrefix(s[..|s| - 1]);
    }
  }

  lemma TrimmedOccurs(s: string, pattern: string)
    requires Occurs(Trim(s), pattern)
    ensures Occurs(s, pattern)
  {
    TrimStartIsSuffix(s);
    var t := TrimStart(s);
    TrimEndIsPrefix(t);
    FindInPrefix(Trim(s), t[|Trim(s)|..], pattern);
    assert t == Trim(s) + t[|Trim(s)|..];
    OccursInSuffix(s, |s| - |t|, pattern);
  }

  /** The target version is quoted nowhere in the text, pinned or bare. */
  ghost predicate NotYet(text: string, b: string) {
    !Occurs(text, Quoted("=" + b)) && !Occurs(text, Quoted(b))
  }

  lemma LineRoundTrip(t1: string, t2: string, line: string, a: string, b: string)
    requires '"' !in a && '"' !in b && NotYet(line, b)
    requires t1 == WORKSPACE_PACKAGE <==> t2 == WORKSPACE_PACKAGE
    ensures BumpLine(t2, BumpLine(t1, line, a, b), b, a) == line
  {
    hide Replace, Quoted, Trim, Occurs;
    match KindOf(t1, line, a)
    case Pin =>
      ReplacedOccurs(line, "=" + a, "=" + b);
      ReplaceBack(line, "=" + a, "=" + b);
    case PackageVersion =>
      var after := Replace(line, Quoted(a), Quoted(b));
      if Occurs(after, Quoted("=" + b)) {
        NothingElseAppears(line, a, b, "=" + b);
      }
      TrimReplace(line, a, b);
      SamePrefixToQuote("version", Trim(line), a, b);
      ReplacedOccurs(Trim(line), a, b);
      ReplaceBack(line, a, b);
    case Unchanged =>
      if Occurs(Trim(line), Quoted(b)) {
        TrimmedOccurs(line, Quoted(b));
      }
  }

  lemma TableRoundTrip(above1: string, above2: string, line: string, a: string, b: string)
    requires above1 == WORKSPACE_PACKAGE <==> above2 == WORKSPACE_PACKAGE
    ensures var t := TableAfter(above1, line);
            t == WORKSPACE_PACKAGE <==> TableAfter(above2, BumpLine(t, line, a, b)) == WORKSPACE_PACKAGE
  {
    hide Replace, Trim;
    TableReplace(above1, above2, line, "=" + a, "=" + b);
    TableReplace(above1, above2, line, a, b);
  }

  lemma {:induction false} LinesRoundTrip(t1: string, t2: string, lines: seq<string>, a: string, b: string)
    requires '"' !in a && '"' !in b
    requires forall i | 0 <= i < |lines| :: NotYet(lines[i], b)
    requires t1 == WORKSPACE_PACKAGE <==> t2 == WORKSPACE_PACKAGE
    ensures BumpLines(t2, BumpLines(t1, lines, a, b), b, a) == lines
    decreases |lines|
  {
    hide BumpLine, TableAfter, NotYet;
    if lines != [] {
      var here := TableAfter(t1, lines[0]);
      var bumped := BumpLines(t1, lines, a, b);
      var there := TableAfter(t2, bumped[0]);
      TableRoundTrip(t1, t2, lines[0], a, b);
      LineRoundTrip(here, there, lines[0], a, b);
      LinesRoundTrip(here, there, lines[1..], a, b);
      assert bumped[1..] == BumpLines(here, lines[1..], a, b);
    }
  }

  // ----- The whole text

  lemma FirstNewline(line: string, rest: string)
    requires '\n' !in line
    ensures Find(line, "\n").None?
    ensures Find(line + "\n" + rest, "\n") == Some(|line|)
  {
    var s := line + "\n" + rest;
    assert s[|line|..|line| + 1] == "\n";
    assert MatchesAt(s, "\n", |line|);
    var i := Find(s, "\n").value;
    assert s[i..i + 1][0] == s[i] == '\n';
    assert forall k | 0 <= k < |line| :: s[k] == line[k] && line[k] in line;
    if Find(line, "\n").Some? {
      NewlineFound(line);
    }
  }

  lemma NewlineFound(line: string)
    requires Find(line, "\n").Some?
    ensures '\n' in line
  {
    var j := Find(line, "\n").value;
    assert line[j..j + 1][0] == line[j];
  }

  /** A text cut at its first newline. */
  lemma CutLine(text: string)
    requires Find(text, "\n").Some?
    ensures var i := Find(text, "\n").value; text == text[..i] + "\n" + text[i + 1..] && '\n' !in text[..i]
  {
    var i := Find(text, "\n").value;
    assert text[i..i + 1] == "\n";
    forall k | 0 <= k < i ensures text[k] != '\n' {
      assert !MatchesAt(text, "\n", k);
      assert text[k..k + 1] == [text[k]];
    }
  }

  lemma {:induction false} LinesHold(text: string, i: nat)
    requires i < |Lines(text)|
    ensures '\n' !in Lines(text)[i]
    ensures forall pattern :: Occurs(Lines(text)[i], pattern) ==> Occurs(text, pattern)
    decreases |text|
  {
    hide Occurs;
    var found := Find(text, "\n");
    if found.None? {
      NoNewline(text);
    } else {
      CutLine(text);
      var k := found.value;
      if i > 0 {
        LinesHold(text[k + 1..], i - 1);
      }
      var line := StripCr(text[..k]);
      assert line == text[..|line|];
      forall pattern ensures Occurs(line, pattern) || Occurs(text[k + 1..], pattern) ==> Occurs(text, pattern) {
        OccursInSuffix(text, k + 1, pattern);
        OccursInPrefix(text, |line|, pattern);
      }
    }
  }

  lemma OccursInPrefix(s: string, k: nat, pattern: string)
    requires k <= |s|
    ensures Occurs(s[..k], pattern) ==> Occurs(s, pattern)
  {
    if Occurs(s[..k], pattern) {
      FindInPrefix(s[..k], s[k..], pattern);
      assert s == s[..k] + s[k..];
    }
  }

  lemma NoNewline(text: string)
    requires Find(text, "\n").None?
    ensures '\n' !in text
  {
    forall k | 0 <= k < |text| ensures text[k] != '\n' {
      assert !MatchesAt(text, "\n", k);
      assert text[k..k + 1] == [text[k]];
    }
  }

  function Final(newline: bool): string {
    if newline then "\n" else ""
  }

  predicate EndsInCr(line: string) {
    line != "" && line[|line| - 1] == '\r'
  }

  /** No line that a newline ends would lose a carriage return to it. */
  ghost predicate Plain(lines: seq<string>, newline: bool) {
    forall i | 0 <= i < |lines| && (newline || i < |lines| - 1) :: !EndsInCr(lines[i])
  }

  /** Joined lines, split again: those that a newline ends lose a carriage return to it. */
  function Recut(lines: seq<string>, newline: bool): (recut: seq<string>)
    ensures |recut| == |lines|
  {
    if lines == [] then []
    else [if |lines| == 1 && !newline then lines[0] else StripCr(lines[0])] + Recut(lines[1..], newline)
  }

  lemma {:induction false} RecutAt(lines: seq<string>, newline: bool, i: nat)
    requires i < |lines|
    ensures Recut(lines, newline)[i] == if newline || i < |lines| - 1 then StripCr(lines[i]) else lines[i]
  {
    if i > 0 {
      RecutAt(lines[1..], newline, i - 1);
    }
  }

  lemma RecutExact(lines: seq<string>, newline: bool)
    ensures Recut(lines, newline) == lines <==> Plain(lines, newline)
  {
    forall i | 0 <= i < |lines|
      ensures Recut(lines, newline)[i] == lines[i] <==> !((newline || i < |lines| - 1) && EndsInCr(lines[i]))
    {
      RecutAt(lines, newline, i);
      assert |StripCr(lines[i])| == |lines[i]| - if EndsInCr(lines[i]) then 1 else 0;
    }
    if Plain(lines, newline) {
      assert Recut(lines, newline) == lines;
    }
  }

  lemma {:induction false} LinesOfJoin(lines: seq<string>, newline: bool)
    requires forall i | 0 <= i < |lines| :: '\n' !in lines[i]
    requires lines != [] && (newline || lines[|lines| - 1] != "")
    ensures Lines(Join(lines) + Final(newline)) == Recut(lines, newline)
    ensures EndsWith(Join(lines) + Final(newline), "\n") == newline
    decreases |lines|
  {
    hide Lines, EndsWith, StripCr;
    var first := lines[0];
    if |lines| == 1 {
      LastLine(first, newline);
      assert lines == [first] && lines[1..] == [];
    } else {
      var rest := Join(lines[1..]) + Final(newline);
      LinesOfJoin(lines[1..], newline);
      LinesCons(first, rest);
      assert Join(lines) + Final(newline) == first + "\n" + rest;
      NothingToBump("", "");
      assert rest != "";
      EndsAfterLine(first, rest);
    }
  }

  lemma LinesCons(first: string, rest: string)
    requires '\n' !in first
    ensures Lines(first + "\n" + rest) == [StripCr(first)] + Lines(rest)
  {
    FirstNewline(first, rest);
    var text := first + "\n" + rest;
    assert text[..|first|] == first && text[|first| + 1..] == rest;
  }

  lemma LastLine(line: string, newline: bool)
    requires '\n' !in line && (newline || line != "")
    ensures Lines(Join([line]) + Final(newline)) == [if newline then StripCr(line) else line]
    ensures EndsWith(Join([line]) + Final(newline), "\n") == newline
  {
    if newline {
      LinesCons(line, "");
      assert line + "\n" + "" == Join([line]) + Final(newline);
      EndsAfterLine(line, "");
    } else {
      FirstNewline(line, "");
      assert Join([line]) + Final(newline) == line;
      assert line[|line| - 1] in line;
    }
  }

  lemma EndsAfterLine(line: string, rest: string)
    ensures EndsWith(line + "\n" + rest, "\n") == (rest == "" || EndsWith(rest, "\n"))
  {
    var text := line + "\n" + rest;
    if rest == "" {
      assert text[|text| - 1..] == "\n";
    } else {
      assert text[|text| - 1..] == rest[|rest| - 1..];
    }
  }

  /** Text that does not end in a newline ends in a line that is not empty. */
  lemma {:induction false} LastLineNotEmpty(text: string)
    requires text != ""
    ensures Lines(text) != []
    ensures !EndsWith(text, "\n") ==> Lines(text)[|Lines(text)| - 1] != ""
    decreases |text|
  {
    hide EndsWith;
    var found := Find(text, "\n");
    if found.Some? {
      var i := found.value;
      var rest := text[i + 1..];
      assert text[i..i + 1] == "\n";
      assert text == text[..i] + "\n" + rest;
      EndsAfterLine(text[..i], rest);
      if rest != "" {
        LastLineNotEmpty(rest);
      }
    }
  }

  lemma {:induction false} ReplaceWithout(s: string, a: string, b: string, c: char)
    requires c !in s && c !in b && c != '"'
    ensures c !in Replace(s, Quoted(a), Quoted(b))
    decreases |s|
  {
    if s != "" {
      if Quoted(a) <= s {
        ReplaceWithout(s[|Quoted(a)|..], a, b, c);
      } else {
        ReplaceWithout(s[1..], a, b, c);
      }
    }
  }

  /** Rewriting a line puts no newline in it, and leaves its last character, if it has one. */
  lemma BumpLineShape(table: string, line: string, a: string, b: string)
    requires '\n' !in line && '\n' !in b
    ensures '\n' !in BumpLine(table, line, a, b)
    ensures line != "" ==> BumpLine(table, line, a, b) != ""
    ensures EndsInCr(BumpLine(table, line, a, b)) == EndsInCr(line)
  {
    hide KindOf, Replace;
    ReplaceWithout(line, "=" + a, "=" + b, '\n');
    ReplaceWithout(line, a, b, '\n');
    if line != "" {
      LastStays(line, "=" + a, "=" + b);
      LastStays(line, a, b);
    } else {
      NothingReplaced(a, b);
    }
  }

  lemma NothingReplaced(a: string, b: string)
    ensures Replace("", Quoted(a), Quoted(b)) == Replace("", Quoted("=" + a), Quoted("=" + b)) == ""
  {
  }

  lemma {:induction false} BumpLinesShape(table: string, lines: seq<string>, a: string, b: string, i: nat)
    requires '\n' !in b && i < |lines| && '\n' !in lines[i]
    ensures '\n' !in BumpLines(table, lines, a, b)[i]
    ensures lines[i] != "" ==> BumpLines(table, lines, a, b)[i] != ""
    ensures EndsInCr(BumpLines(table, lines, a, b)[i]) == EndsInCr(lines[i])
    decreases |lines|
  {
    hide BumpLine, TableAfter, EndsInCr;
    var here := TableAfter(table, lines[0]);
    if i == 0 {
      BumpLineShape(here, lines[0], a, b);
    } else {
      BumpLinesShape(here, lines[1..], a, b, i - 1);
    }
  }

  /**
   The rewritten text has as many lines as the text, each the rewritten one less a carriage return that now stands
   before its newline; they are exactly the rewritten ones when the text has no doubled carriage return there.
   */
  lemma BumpedLines(text: string, a: string, b: string)
    requires '\n' !in b
    ensures Lines(Bumped(text, a, b)) == Recut(BumpLines("", Lines(text), a, b), EndsWith(text, "\n"))
    ensures Lines(Bumped(text, a, b)) == BumpLines("", Lines(text), a, b) <==> !Occurs(text, "\r\r\n")
    ensures EndsWith(Bumped(text, a, b), "\n") == EndsWith(text, "\n")
  {
    hide BumpLines, Lines, Join, Recut, Occurs, EndsInCr, EndsWith;
    var lines, bumped, newline := Lines(text), BumpLines("", Lines(text), a, b), EndsWith(text, "\n");
    forall i | 0 <= i < |lines|
      ensures '\n' !in bumped[i] && (lines[i] != "" ==> bumped[i] != "") && EndsInCr(bumped[i]) == EndsInCr(lines[i])
    {
      LinesHold(text, i);
      BumpLinesShape("", lines, a, b, i);
    }
    if text == "" {
      NothingToBump(a, b);
    } else {
      LastLineNotEmpty(text);
      LinesOfJoin(bumped, newline);
    }
    RecutExact(bumped, newline);
    PlainExact(text);
  }

  lemma NothingToBump(a: string, b: string)
    ensures Lines("") == [] && Bumped("", a, b) == "" && BumpLines("", [], a, b) == []
    ensures Recut([], EndsWith("", "\n")) == []
  {
  }

  /** A line of the text still ends in a carriage return before its newline exactly when two stood there. */
  lemma {:induction false} PlainExact(text: string)
    ensures Plain(Lines(text), EndsWith(text, "\n")) <==> !Occurs(text, "\r\r\n")
    decreases |text|
  {
    hide Occurs, EndsWith, Plain, EndsInCr;
    var found := Find(text, "\n");
    if text == "" || found.None? {
      PlainOneLine(text);
    } else {
      var i := found.value;
      var rest := text[i + 1..];
      CutLine(text);
      PlainExact(rest);
      EndsAfterLine(text[..i], rest);
      if rest == "" {
        PlainOneLine("");
      } else {
        LastLineNotEmpty(rest);
      }
      PlainCons(StripCr(text[..i]), Lines(rest), EndsWith(text, "\n"), EndsWith(rest, "\n"));
      DoubledSplit(text, i);
    }
  }

  lemma PlainOneLine(text: string)
    requires text == "" || Find(text, "\n").None?
    ensures Plain(Lines(text), EndsWith(text, "\n")) && !Occurs(text, "\r\r\n") && (text == "" ==> Lines(text) == [])
  {
    NoNewlineNoCrlf(text);
    DoubledHasCrlf(text);
  }

  lemma DoubledHasCrlf(text: string)
    ensures Occurs(text, "\r\r\n") ==> Occurs(text, "\r\n")
  {
    if Occurs(text, "\r\r\n") {
      var i: nat :| i <= |text| && MatchesAt(text, "\r\r\n", i);
      assert text[i + 1..i + 3] == text[i..i + 3][1..] == "\r\n";
      assert MatchesAt(text, "\r\n", i + 1);
    }
  }

  lemma PlainCons(first: string, rest: seq<string>, newline: bool, restNewline: bool)
    requires if rest == [] then newline else newline == restNewline
    ensures Plain([first] + rest, newline) <==> !EndsInCr(first) && Plain(rest, restNewline)
  {
    hide EndsInCr;
    var lines := [first] + rest;
    assert forall i | 0 <= i < |rest| :: lines[i + 1] == rest[i];
    if Plain(lines, newline) {
      assert !EndsInCr(lines[0]);
      forall i | 0 <= i < |rest| && (restNewline || i < |rest| - 1) ensures !EndsInCr(rest[i]) {
        assert !EndsInCr(lines[i + 1]);
      }
    }
  }

  lemma MatchedCharacter(text: string, pattern: string, k: nat, j: nat)
    requires MatchesAt(text, pattern, k) && j < |pattern|
    ensures text[k + j] == pattern[j]
  {
    assert text[k..k + |pattern|][j] == text[k + j];
  }

  lemma NewlineAt(text: string, k: nat)
    requires k < |text|
    ensures MatchesAt(text, "\n", k) <==> text[k] == '\n'
  {
    assert text[k..k + 1] == [text[k]];
  }

  /** A line ending is the one at the first newline, or beyond it. */
  lemma EndingAtOrAfter(text: string, pattern: string, i: nat, k: nat)
    requires Find(text, "\n") == Some(i) && MatchesAt(text, pattern, k)
    requires pattern != "" && pattern[|pattern| - 1] == '\n' && forall j | 0 <= j < |pattern| - 1 :: pattern[j] != '\n'
    ensures k + |pattern| - 1 == i || (k > i && MatchesAt(text[i + 1..], pattern, k - i - 1))
  {
    var last := k + |pattern| - 1;
    MatchedCharacter(text, pattern, k, |pattern| - 1);
    NewlineAt(text, last);
    NewlineAt(text, i);
    if k <= i < last {
      MatchedCharacter(text, pattern, k, i - k);
      assert false;
    }
    if i < k {
      assert text[i + 1..][k - i - 1..k - i - 1 + |pattern|] == text[k..k + |pattern|];
    }
  }

  lemma DoubledSplit(text: string, i: nat)
    requires Find(text, "\n") == Some(i)
    ensures Occurs(text, "\r\r\n") <==> EndsInCr(StripCr(text[..i])) || Occurs(text[i + 1..], "\r\r\n")
  {
    OccursInSuffix(text, i + 1, "\r\r\n");
    NewlineAt(text, i);
    if EndsInCr(StripCr(text[..i])) {
      assert text[i - 2..i + 1] == "\r\r\n";
      assert MatchesAt(text, "\r\r\n", i - 2);
    }
    if Occurs(text, "\r\r\n") {
      var k: nat :| k <= |text| && MatchesAt(text, "\r\r\n", k);
      EndingAtOrAfter(text, "\r\r\n", i, k);
      MatchedCharacter(text, "\r\r\n", k, 0);
      MatchedCharacter(text, "\r\r\n", k, 1);
    }
  }

  /** The table in force at line `i`. */
  function TableAt(lines: seq<string>, i: nat): string
    requires i < |lines|
  {
    TableAfter(if i == 0 then "" else TableAt(lines, i - 1), lines[i])
  }

  lemma {:induction false} BumpLinesAt(table: string, lines: seq<string>, a: string, b: string, done: seq<string>, i: nat)
    requires i < |lines| && table == (if done == [] then "" else TableAt(done + lines, |done| - 1))
    ensures BumpLines(table, lines, a, b)[i] == BumpLine(TableAt(done + lines, |done| + i), lines[i], a, b)
    decreases |lines|
  {
    hide BumpLine, TableAfter;
    if i > 0 {
      var more := done + [lines[0]];
      assert more + lines[1..] == done + lines;
      BumpLinesAt(TableAfter(table, lines[0]), lines[1..], a, b, more, i - 1);
    }
  }

  /** Replacing an occurrence by something else changes the text. */
  lemma {:induction false} ReplaceChanges(s: string, a: string, b: string)
    requires '"' !in a && '"' !in b && a != b && Occurs(s, Quoted(a))
    ensures Replace(s, Quoted(a), Quoted(b)) != s
    decreases |s|
  {
    var r := Replace(s, Quoted(a), Quoted(b));
    if Quoted(a) <= s {
      if r == s {
        assert Quoted(b) <= r;
        QuotedUnique(s, a, b);
      }
    } else {
      OccursSplit(s, Quoted(a));
      ReplaceChanges(s[1..], a, b);
      assert r[1..] == Replace(s[1..], Quoted(a), Quoted(b));
    }
  }

  /** A line changes exactly when it is a pin, in whatever table, or the version of the workspace package. */
  lemma LineChanges(table: string, line: string, a: string, b: string)
    requires '"' !in a && '"' !in b && a != b
    ensures BumpLine(table, line, a, b) == line <==> KindOf(table, line, a) == Unchanged
    ensures KindOf(table, line, a) == Pin <==> Occurs(line, Quoted("=" + a))
  {
    hide Replace, Quoted, Trim, Occurs;
    match KindOf(table, line, a)
    case Pin =>
      assert ("=" + a)[1..] == a && ("=" + b)[1..] == b;
      ReplaceChanges(line, "=" + a, "=" + b);
    case PackageVersion =>
      TrimmedOccurs(line, Quoted(a));
      ReplaceChanges(line, a, b);
    case Unchanged =>
  }

  /**
   Every line other than a pin and the workspace version comes out as it went in, and those two do not. A line that
   kept a carriage return before its newline is the exception: that goes too.
   */
  lemma OtherLinesStay(text: string, a: string, b: string, i: nat)
    requires '\n' !in b && i < |Lines(text)|
    ensures |Lines(Bumped(text, a, b))| == |Lines(text)|
    ensures var line := Lines(text)[i];
            var kind := KindOf(TableAt(Lines(text), i), line, a);
            (EndsInCr(line) && (EndsWith(text, "\n") || i < |Lines(text)| - 1)) ||
            (&& (kind == Unchanged ==> Lines(Bumped(text, a, b))[i] == line)
             && ('"' !in a && '"' !in b && a != b && Lines(Bumped(text, a, b))[i] == line ==> kind == Unchanged))
  {
    hide BumpLines, Lines, Bumped, TableAt, KindOf, BumpLine, Recut, EndsInCr, EndsWith;
    var line, table := Lines(text)[i], TableAt(Lines(text), i);
    BumpedLines(text, a, b);
    BumpLinesAt("", Lines(text), a, b, [], i);
    assert [] + Lines(text) == Lines(text);
    RecutAt(BumpLines("", Lines(text), a, b), EndsWith(text, "\n"), i);
    LinesHold(text, i);
    BumpLineShape(table, line, a, b);
    StripCrExact(BumpLine(table, line, a, b));
    BumpUnchanged(table, line, a, b);
    if '"' !in a && '"' !in b && a != b {
      LineChanges(table, line, a, b);
    }
  }

  /** A pin moves under any table header. */
  lemma PinUnderHeader(header: string, line: string, a: string, b: string)
    requires '\n' !in header && '\n' !in line && '\n' !in b && '"' !in a && '"' !in b && a != b
    requires line != "" && !EndsInCr(header) && !EndsInCr(line)
    requires IsHeader(Trim(header)) && !IsHeader(Trim(line)) && Occurs(line, Quoted("=" + a))
    ensures var text := header + "\n" + line;
            && Lines(text) == [header, line] && TableAt(Lines(text), 1) == Trim(header)
            && |Lines(Bumped(text, a, b))| == 2 && Lines(Bumped(text, a, b))[1] != line
  {
    hide BumpLines, Bumped, KindOf, BumpLine, Trim, IsHeader, Occurs, Lines;
    var text := header + "\n" + line;
    LastLine(line, false);
    assert Join([line]) + Final(false) == line;
    LinesCons(header, line);
    assert StripCr(header) == header by { StripCrExact(header); }
    var lines := Lines(text);
    assert TableAt(lines, 0) == Trim(header);
    LineChanges(TableAt(lines, 1), line, a, b);
    OtherLinesStay(text, a, b, 1);
  }

  const PATCHED := "x = \"=1\""

  /** So a pin in `[patch]` is moved, which is not the table of the workspace's dependencies. */
  lemma PinElsewhereMoves()
    ensures var text := "[patch]" + "\n" + PATCHED;
            && Lines(text) == ["[patch]", PATCHED] && TableAt(Lines(text), 1) == "[patch]"
            && |Lines(Bumped(text, "1", "2"))| == 2 && Lines(Bumped(text, "1", "2"))[1] != PATCHED
  {
    hide Lines, TableAt, Bumped, Occurs, Trim, IsHeader;
    PatchShape();
    PinUnderHeader("[patch]", PATCHED, "1", "2");
  }

  lemma PatchShape()
    ensures IsHeader(Trim("[patch]")) && Trim("[patch]") == "[patch]" && !IsHeader(Trim(PATCHED))
    ensures Occurs(PATCHED, Quoted("=" + "1"))
  {
    assert Trim(PATCHED) == PATCHED;
    assert "=" + "1" == "=1" && Quoted("=1") == "\"=1\"";
    assert MatchesAt(PATCHED, "\"=1\"", 4);
  }

  lemma BumpUnchanged(table: string, line: string, a: string, b: string)
    ensures KindOf(table, line, a) == Unchanged ==> BumpLine(table, line, a, b) == line
  {
  }

  lemma StripCrExact(line: string)
    ensures StripCr(line) == line <==> !EndsInCr(line)
  {
    assert |StripCr(line)| == |line| - if EndsInCr(line) then 1 else 0;
  }

  /** A line that already pins the target, and not the version bumped from, does not survive: it comes back pinned to that. */
  lemma ForeignPinIsRewritten(t1: string, t2: string, line: string, a: string, b: string)
    requires '"' !in a && '"' !in b
    requires Occurs(line, Quoted("=" + b)) && !Occurs(line, Quoted("=" + a))
    requires !Occurs(line, Quoted(a))
    ensures BumpLine(t2, BumpLine(t1, line, a, b), b, a) != line
  {
    hide Replace, Quoted, Trim, Occurs;
    if Occurs(Trim(line), Quoted(a)) {
      TrimmedOccurs(line, Quoted(a));
    }
    ReplacedOccurs(line, "=" + b, "=" + a);
  }

  // ----- Line endings

  /** A bump that changes nothing still writes every line ending as a newline: it is the identity exactly without CRLF. */
  lemma {:induction false} RejoinExact(text: string)
    ensures |Rejoin(text, Lines(text))| <= |text|
    ensures Rejoin(text, Lines(text)) == text <==> !Occurs(text, "\r\n")
    decreases |text|
  {
    hide Lines, Rejoin, Find, Occurs;
    var found := Find(text, "\n");
    if text != "" && found.Some? {
      var i := found.value;
      RejoinExact(text[i + 1..]);
      RejoinStep(text, i);
      CrlfSplit(text, i);
      assert text == text[..i] + "\n" + text[i + 1..] by { assert text[i..i + 1] == "\n"; }
      SameSplit(text[..i], StripCr(text[..i]), text[i + 1..], Rejoin(text[i + 1..], Lines(text[i + 1..])));
    } else {
      OneLine(text);
    }
  }

  lemma OneLine(text: string)
    requires text == "" || Find(text, "\n").None?
    ensures Rejoin(text, Lines(text)) == text && !Occurs(text, "\r\n")
  {
    NoNewlineNoCrlf(text);
  }

  lemma SameSplit(line: string, shorter: string, rest: string, less: string)
    requires |shorter| <= |line| && |less| <= |rest|
    ensures |shorter + "\n" + less| <= |line + "\n" + rest|
    ensures shorter + "\n" + less == line + "\n" + rest <==> shorter == line && less == rest
  {
    var a, b := shorter + "\n" + less, line + "\n" + rest;
    if a == b {
      assert |shorter| == |line|;
      assert shorter == a[..|line|] && line == b[..|line|];
      assert less == a[|line| + 1..] && rest == b[|line| + 1..];
    }
  }

  lemma RejoinStep(text: string, i: nat)
    requires Find(text, "\n") == Some(i)
    ensures Rejoin(text, Lines(text)) == StripCr(text[..i]) + "\n" + Rejoin(text[i + 1..], Lines(text[i + 1..]))
  {
    hide EndsWith, Find;
    var line, rest := StripCr(text[..i]), text[i + 1..];
    var lines := [line] + Lines(rest);
    assert Lines(text) == lines && lines[1..] == Lines(rest);
    assert text == text[..i] + "\n" + rest by { assert text[i..i + 1] == "\n"; }
    EndsAfterLine(text[..i], rest);
    if rest == "" {
      assert !EndsWith("", "\n") by { NoNewlineNoCrlf(""); }
    } else {
      LastLineNotEmpty(rest);
    }
  }

  lemma NoNewlineNoCrlf(text: string)
    requires Find(text, "\n").None?
    ensures !Occurs(text, "\r\n") && !EndsWith(text, "\n")
  {
    NoNewline(text);
    forall i: nat ensures !MatchesAt(text, "\r\n", i) {
      if i + 2 <= |text| {
        assert text[i..i + 2][1] == text[i + 1];
      }
    }
  }

  lemma CrlfSplit(text: string, i: nat)
    requires Find(text, "\n") == Some(i)
    ensures Occurs(text, "\r\n") <==> StripCr(text[..i]) != text[..i] || Occurs(text[i + 1..], "\r\n")
  {
    OccursInSuffix(text, i + 1, "\r\n");
    NewlineAt(text, i);
    if StripCr(text[..i]) != text[..i] {
      assert text[i - 1..i + 1] == "\r\n";
      assert MatchesAt(text, "\r\n", i - 1);
    }
    if Occurs(text, "\r\n") {
      var k: nat :| k <= |text| && MatchesAt(text, "\r\n", k);
      EndingAtOrAfter(text, "\r\n", i, k);
      MatchedCharacter(text, "\r\n", k, 0);
    }
  }
}

/** Bumping a manifest to a version and back: exactly which manifests come back as they were. */
module ManifestRoundTrip {
  import opened Wrappers
  import opened Text
  import opened Manifest

  /** No line break, as in a validated version. */
  predicate Clean(version: string) {
    '\n' !in version && '\r' !in version
  }

  // ----- One replacement

  /** Looking for one quoted version from the left, the other is come across first somewhere. */
  predicate ComesAcross(s: string, a: string, b: string)
    decreases |s|
  {
    s != "" &&
    if Quoted(a) <= s then ComesAcross(s[|Quoted(a)|..], a, b)
    else Quoted(b) <= s || ComesAcross(s[1..], a, b)
  }

  lemma QuotedNext(s: string, a: string, b: string)
    requires s != "" && '"' !in b
    ensures Quoted(b) <= [s[0]] + Replace(s[1..], Quoted(a), Quoted(b)) <==> Quoted(b) <= s
  {
    var r := Replace(s[1..], Quoted(a), Quoted(b));
    var t := [s[0]] + r;
    SamePrefixToQuote(b, s[1..], a, b);
    if Quoted(b) <= t {
      QuotedHead(b, t);
      assert "\"" + r == t;
      UnquotedPrefix(b, r);
      QuotedPrefix(b, s);
    }
    if Quoted(b) <= s {
      QuotedHead(b, s);
      assert "\"" + s[1..] == s;
      UnquotedPrefix(b, s[1..]);
      assert t[1..] == r;
      QuotedPrefix(b, t);
    }
  }

  /** Replacing there and back restores the text exactly when the other version is never come across. */
  lemma {:induction false} BackExactly(s: string, a: string, b: string)
    requires '"' !in a && '"' !in b && a != b
    ensures Replace(Replace(s, Quoted(a), Quoted(b)), Quoted(b), Quoted(a)) == s <==> !ComesAcross(s, a, b)
    decreases |s|
  {
    hide Quoted;
    if s != "" {
      if Quoted(a) <= s {
        var rest := s[|Quoted(a)|..];
        BackExactly(rest, a, b);
        var r := Replace(rest, Quoted(a), Quoted(b));
        assert (Quoted(b) + r)[|Quoted(b)|..] == r;
        assert s == Quoted(a) + rest;
      } else {
        BackExactly(s[1..], a, b);
        QuotedNext(s, a, b);
        var r := Replace(s[1..], Quoted(a), Quoted(b));
        var t := [s[0]] + r;
        assert t[1..] == r && s == [s[0]] + s[1..];
        if Quoted(b) <= s {
          BackDiffers(t, s, a, b);
        }
      }
    }
  }

  lemma BackDiffers(t: string, s: string, a: string, b: string)
    requires '"' !in a && '"' !in b && a != b && Quoted(b) <= t && Quoted(b) <= s
    ensures Replace(t, Quoted(b), Quoted(a)) != s
  {
    var back := Replace(t, Quoted(b), Quoted(a));
    assert Quoted(a) <= back;
    if back == s {
      QuotedUnique(s, a, b);
    }
  }

  // ----- One line

  /** The rewritten version line would be taken for a pin on the way back. */
  predicate LooksPinned(line: string, a: string, b: string) {
    Find(Replace(line, Quoted(a), Quoted(b)), Quoted("=" + b)).Some?
  }

  /** That is when it has such a pin to begin with; only a version that itself starts with `=` could make one. */
  lemma LooksPinnedExactly(line: string, a: string, b: string)
    requires '"' !in a && '"' !in b && a != "=" + b
    ensures LooksPinned(line, a, b) <==> Occurs(line, Quoted("=" + b))
  {
    hide Replace, Quoted, Occurs;
    var after := Replace(line, Quoted(a), Quoted(b));
    if Occurs(line, Quoted("=" + b)) {
      OthersStay(line, a, b, "=" + b);
    }
    if Occurs(after, Quoted("=" + b)) {
      assert |"=" + b| != |b|;
      NothingElseAppears(line, a, b, "=" + b);
    }
  }

  /** What decides whether a line comes back: its kind going there, and what the way back would meet. */
  predicate LineComesBack(table: string, line: string, a: string, b: string) {
    match KindOf(table, line, a)
    case Pin => !ComesAcross(line, "=" + a, "=" + b)
    case PackageVersion => !LooksPinned(line, a, b) && !ComesAcross(line, a, b)
    case Unchanged => KindOf(table, line, b) == Unchanged
  }

  lemma PinComesBack(t2: string, line: string, a: string, b: string)
    requires '"' !in a && '"' !in b && a != b && Occurs(line, Quoted("=" + a))
    ensures var after := Replace(line, Quoted("=" + a), Quoted("=" + b));
            BumpLine(t2, after, b, a) == line <==> !ComesAcross(line, "=" + a, "=" + b)
  {
    hide Replace, Quoted, Occurs, ComesAcross;
    assert ("=" + a)[1..] == a && ("=" + b)[1..] == b;
    ReplacedOccurs(line, "=" + a, "=" + b);
    BackExactly(line, "=" + a, "=" + b);
  }

  lemma VersionComesBack(t2: string, line: string, a: string, b: string)
    requires '"' !in a && '"' !in b && a != b && t2 == WORKSPACE_PACKAGE
    requires KindOf(t2, line, a) == PackageVersion
    ensures var after := Replace(line, Quoted(a), Quoted(b));
            BumpLine(t2, after, b, a) == line <==> !LooksPinned(line, a, b) && !ComesAcross(line, a, b)
  {
    hide Replace, Quoted, Trim, Occurs, ComesAcross, StartsWith;
    var after := Replace(line, Quoted(a), Quoted(b));
    if LooksPinned(line, a, b) {
      ReplacedOccurs(after, "=" + b, "=" + a);
    } else {
      StaysAVersion(line, a, b);
      BackExactly(line, a, b);
    }
  }

  lemma StaysAVersion(line: string, a: string, b: string)
    requires StartsWith(Trim(line), "version") && Occurs(Trim(line), Quoted(a))
    ensures var after := Trim(Replace(line, Quoted(a), Quoted(b)));
            StartsWith(after, "version") && Occurs(after, Quoted(b))
  {
    hide Replace, Quoted, Trim, Occurs;
    TrimReplace(line, a, b);
    SamePrefixToQuote("version", Trim(line), a, b);
    ReplacedOccurs(Trim(line), a, b);
  }

  /** Replacing one quoted text leaves every other in place, even where they share a quote. */
  lemma {:induction false} OthersStay(s: string, a: string, b: string, x: string)
    requires '"' !in a && '"' !in x && x != a && Occurs(s, Quoted(x))
    ensures Occurs(Replace(s, Quoted(a), Quoted(b)), Quoted(x))
    decreases |s|
  {
    hide Occurs;
    if s == "" {
      QuotedNowhere(x);
    } else if Quoted(a) <= s {
      var rest := s[|Quoted(a)|..];
      var r := Replace(rest, Quoted(a), Quoted(b));
      assert s == Quoted(a) + rest;
      if Occurs(rest, Quoted(x)) {
        OthersStay(rest, a, b, x);
        OccursShifts(r, Quoted(b), Quoted(x));
      } else {
        AtTheSeam(rest, a, x);
        SamePrefixToQuote(x, rest, a, b);
        SeamOccurs(r, b, x);
      }
    } else {
      var r := Replace(s[1..], Quoted(a), Quoted(b));
      if Quoted(x) <= s {
        QuotedHead(x, s);
        assert "\"" + s[1..] == s;
        UnquotedPrefix(x, s[1..]);
        SamePrefixToQuote(x, s[1..], a, b);
        assert ([s[0]] + r)[1..] == r;
        QuotedPrefix(x, [s[0]] + r);
        PrefixOccurs([s[0]] + r, Quoted(x));
      } else {
        OccursSplit(s, Quoted(x));
        OthersStay(s[1..], a, b, x);
        OccursShifts(r, [s[0]], Quoted(x));
      }
    }
  }

  lemma QuotedNowhere(x: string)
    ensures !Occurs("", Quoted(x))
  {
  }

  /** The closing quote of one text opens the next. */
  lemma SeamOccurs(r: string, b: string, x: string)
    requires x + "\"" <= r
    ensures Occurs(Quoted(b) + r, Quoted(x))
  {
    assert ("\"" + r)[1..] == r;
    QuotedPrefix(x, "\"" + r);
    PrefixOccurs("\"" + r, Quoted(x));
    OccursShifts("\"" + r, "\"" + b, Quoted(x));
    assert "\"" + b + ("\"" + r) == Quoted(b) + r;
  }

  /** A line comes back exactly when its condition holds, overlapping quotes included. */
  lemma LineExactly(t1: string, t2: string, line: string, a: string, b: string)
    requires '"' !in a && '"' !in b && a != b
    requires t1 == WORKSPACE_PACKAGE <==> t2 == WORKSPACE_PACKAGE
    ensures BumpLine(t2, BumpLine(t1, line, a, b), b, a) == line <==> LineComesBack(t1, line, a, b)
  {
    hide Replace, Quoted, Trim, Occurs, ComesAcross, StartsWith;
    SameKind(t1, t2, line, a);
    SameKind(t1, t2, line, b);
    match KindOf(t1, line, a)
    case Pin => PinComesBack(t2, line, a, b);
    case PackageVersion => VersionComesBack(t2, line, a, b);
    case Unchanged => LineChanges(t2, line, b, a);
  }

  lemma SameKind(t1: string, t2: string, line: string, a: string)
    requires t1 == WORKSPACE_PACKAGE <==> t2 == WORKSPACE_PACKAGE
    ensures KindOf(t1, line, a) == KindOf(t2, line, a)
    ensures KindOf(t1, line, a) == Pin <==> Occurs(line, Quoted("=" + a))
    ensures KindOf(t1, line, a) == PackageVersion ==> t1 == WORKSPACE_PACKAGE
  {
  }

  /** `"=a"=b"` comes back although it pins the other version: the shared quote belongs to the first pin. */
  lemma SharedQuoteComesBack()
    ensures !ComesAcross("\"=a\"=b\"", "=a", "=b") && Occurs("\"=a\"=b\"", Quoted("=b"))
  {
    var s := "\"=a\"=b\"";
    assert Quoted("=a") == "\"=a\"" && Quoted("=b") == "\"=b\"";
    assert s[4..] == "=b\"" && "=b\""[1..] == "b\"" && "b\""[1..] == "\"" && "\""[1..] == "";
    assert s[3..7] == Quoted("=b");
    assert MatchesAt(s, Quoted("=b"), 3);
  }

  // ----- The whole text

  /** Every line's condition, each under the table in force there. */
  ghost predicate LinesComeBack(lines: seq<string>, a: string, b: string) {
    forall i | 0 <= i < |lines| :: LineComesBack(TableAt(lines, i), lines[i], a, b)
  }

  lemma TableStep(lines: seq<string>, i: nat)
    requires i < |lines|
    ensures TableAt(lines, i) == TableAfter(if i == 0 then "" else TableAt(lines, i - 1), lines[i])
  {
  }

  lemma {:induction false} TablesAgree(lines: seq<string>, a: string, b: string, i: nat)
    requires i < |lines|
    ensures TableAt(lines, i) == WORKSPACE_PACKAGE <==>
            TableAt(BumpLines("", lines, a, b), i) == WORKSPACE_PACKAGE
  {
    hide TableAfter, BumpLine, BumpLines, TableAt;
    var bumped := BumpLines("", lines, a, b);
    BumpLinesAt("", lines, a, b, [], i);
    assert [] + lines == lines;
    TableStep(lines, i);
    TableStep(bumped, i);
    if i == 0 {
      TableRoundTrip("", "", lines[0], a, b);
    } else {
      TablesAgree(lines, a, b, i - 1);
      TableRoundTrip(TableAt(lines, i - 1), TableAt(bumped, i - 1), lines[i], a, b);
    }
  }

  lemma LinesExactly(lines: seq<string>, a: string, b: string)
    requires '"' !in a && '"' !in b && a != b
    ensures BumpLines("", BumpLines("", lines, a, b), b, a) == lines <==> LinesComeBack(lines, a, b)
  {
    hide TableAt, BumpLine, LineComesBack, BumpLines;
    var there := BumpLines("", lines, a, b);
    var back := BumpLines("", there, b, a);
    forall i | 0 <= i < |lines|
      ensures back[i] == lines[i] <==> LineComesBack(TableAt(lines, i), lines[i], a, b)
    {
      BumpLinesAt("", lines, a, b, [], i);
      BumpLinesAt("", there, b, a, [], i);
      assert [] + lines == lines && [] + there == there;
      TablesAgree(lines, a, b, i);
      LineExactly(TableAt(lines, i), TableAt(there, i), lines[i], a, b);
    }
    if LinesComeBack(lines, a, b) {
      assert back == lines;
    }
  }

  // ----- Carriage returns are never won back

  function Crs(s: string): nat {
    if s == "" then 0 else (if s[0] == '\r' then 1 else 0) + Crs(s[1..])
  }

  lemma {:induction false} CrsAppend(s: string, t: string)
    ensures Crs(s + t) == Crs(s) + Crs(t)
  {
    if s == "" {
      assert s + t == t;
    } else {
      assert (s + t)[1..] == s[1..] + t;
      CrsAppend(s[1..], t);
    }
  }

  lemma {:induction false} NoCrs(s: string)
    requires '\r' !in s
    ensures Crs(s) == 0
  {
    if s != "" {
      NoCrs(s[1..]);
    }
  }

  lemma {:induction false} CrsReplace(s: string, a: string, b: string)
    requires '\r' !in a && '\r' !in b
    ensures Crs(Replace(s, Quoted(a), Quoted(b))) == Crs(s)
    decreases |s|
  {
    if s != "" {
      if Quoted(a) <= s {
        var rest := s[|Quoted(a)|..];
        CrsReplace(rest, a, b);
        assert s == Quoted(a) + rest;
        CrsAppend(Quoted(a), rest);
        CrsAppend(Quoted(b), Replace(rest, Quoted(a), Quoted(b)));
        NoCrs(Quoted(a));
        NoCrs(Quoted(b));
      } else {
        CrsReplace(s[1..], a, b);
        assert ([s[0]] + Replace(s[1..], Quoted(a), Quoted(b)))[1..] == Replace(s[1..], Quoted(a), Quoted(b));
      }
    }
  }

  lemma CrsBumpLine(table: string, line: string, a: string, b: string)
    requires '\r' !in a && '\r' !in b
    ensures Crs(BumpLine(table, line, a, b)) == Crs(line)
  {
    hide Replace, Quoted, KindOf;
    CrsReplace(line, "=" + a, "=" + b);
    CrsReplace(line, a, b);
  }

  lemma {:induction false} CrsJoin(table: string, lines: seq<string>, a: string, b: string)
    requires '\r' !in a && '\r' !in b
    ensures Crs(Join(BumpLines(table, lines, a, b))) == Crs(Join(lines))
    decreases |lines|
  {
    hide BumpLine, TableAfter, Crs;
    if lines != [] {
      var here := TableAfter(table, lines[0]);
      var bumped := BumpLines(table, lines, a, b);
      CrsBumpLine(here, lines[0], a, b);
      if |lines| > 1 {
        CrsJoin(here, lines[1..], a, b);
        assert bumped[1..] == BumpLines(here, lines[1..], a, b);
        CrsAppend(lines[0] + "\n", Join(lines[1..]));
        CrsAppend(lines[0], "\n");
        CrsAppend(bumped[0] + "\n", Join(bumped[1..]));
        CrsAppend(bumped[0], "\n");
      }
    }
  }

  /** Rewriting its lines changes no carriage return of a text; putting the lines back together drops those before newlines. */
  lemma CrsBumped(text: string, a: string, b: string)
    requires '\r' !in a && '\r' !in b
    ensures Crs(Bumped(text, a, b)) == Crs(Rejoin(text, Lines(text)))
  {
    hide BumpLines, Lines, Crs, Join, EndsWith;
    var final := Final(EndsWith(text, "\n"));
    CrsJoin("", Lines(text), a, b);
    CrsAppend(Join(BumpLines("", Lines(text), a, b)), final);
    CrsAppend(Join(Lines(text)), final);
  }

  lemma {:induction false} CrsRejoin(text: string)
    ensures Crs(Rejoin(text, Lines(text))) <= Crs(text)
    ensures Occurs(text, "\r\n") ==> Crs(Rejoin(text, Lines(text))) < Crs(text)
    decreases |text|
  {
    hide Lines, Rejoin, Find, Occurs, Crs;
    var found := Find(text, "\n");
    if text != "" && found.Some? {
      var i := found.value;
      CrsRejoin(text[i + 1..]);
      RejoinStep(text, i);
      CrlfSplit(text, i);
      CutLine(text);
      CrsStrip(text[..i]);
      var rest := Rejoin(text[i + 1..], Lines(text[i + 1..]));
      CrsAppend(StripCr(text[..i]) + "\n", rest);
      CrsAppend(StripCr(text[..i]), "\n");
      CrsAppend(text[..i] + "\n", text[i + 1..]);
      CrsAppend(text[..i], "\n");
    } else {
      OneLine(text);
    }
  }

  lemma CrsStrip(line: string)
    ensures Crs(StripCr(line)) == Crs(line) - if StripCr(line) != line then 1 else 0
  {
    if EndsInCr(line) {
      assert line == StripCr(line) + "\r";
      CrsAppend(StripCr(line), "\r");
      assert "\r"[1..] == "";
    } else {
      StripCrExact(line);
    }
  }

  /**
   Bumping from one version to another and back restores a manifest exactly when it has no CRLF and each of its
   lines meets its own condition. Every manifest is covered.
   */
  lemma BumpRoundTripExactly(text: string, a: string, b: string)
    requires '"' !in a && '"' !in b && a != b && Clean(a) && Clean(b)
    ensures Bumped(Bumped(text, a, b), b, a) == text <==> !Occurs(text, "\r\n") && LinesComeBack(Lines(text), a, b)
  {
    hide BumpLines, Lines, Join, Occurs, Bumped, LinesComeBack, Crs;
    if Occurs(text, "\r\n") {
      CrsBumped(text, a, b);
      CrsRejoin(text);
      CrsBumped(Bumped(text, a, b), b, a);
      CrsRejoin(Bumped(text, a, b));
    } else {
      DoubledHasCrlf(text);
      BumpedLines(text, a, b);
      LinesExactly(Lines(text), a, b);
      BackText(text, a, b);
    }
  }

  /** Where lines keep their carriage returns, the text comes back exactly when its lines do. */
  lemma BackText(text: string, a: string, b: string)
    requires !Occurs(text, "\r\n") && Clean(a) && Clean(b)
    requires Lines(Bumped(text, a, b)) == BumpLines("", Lines(text), a, b)
    requires EndsWith(Bumped(text, a, b), "\n") == EndsWith(text, "\n")
    ensures Bumped(Bumped(text, a, b), b, a) == text <==>
            BumpLines("", BumpLines("", Lines(text), a, b), b, a) == Lines(text)
  {
    hide BumpLines, Lines, Join, Occurs, EndsWith;
    RejoinExact(text);
    var back := BumpLines("", Lines(Bumped(text, a, b)), b, a);
    if Bumped(Bumped(text, a, b), b, a) == text {
      KeptByCrs(text, a, b);
      BumpedLines(Bumped(text, a, b), b, a);
    }
  }

  lemma KeptByCrs(text: string, a: string, b: string)
    requires !Occurs(text, "\r\n") && Clean(a) && Clean(b) && Bumped(Bumped(text, a, b), b, a) == text
    ensures !Occurs(Bumped(text, a, b), "\r\r\n")
  {
    hide Bumped, Occurs, Crs;
    if Occurs(Bumped(text, a, b), "\r\n") {
      CrsBumped(text, a, b);
      CrsRejoin(text);
      CrsBumped(Bumped(text, a, b), b, a);
      CrsRejoin(Bumped(text, a, b));
    } else {
      DoubledHasCrlf(Bumped(text, a, b));
    }
  }

  /**
   A line of any text comes out as it went in exactly when it is neither a pin nor the workspace version, and has no
   carriage return left before its newline.
   */
  lemma LineKeptExactly(text: string, a: string, b: string, i: nat)
    requires '"' !in a && '"' !in b && a != b && Clean(a) && Clean(b) && i < |Lines(text)|
    ensures |Lines(Bumped(text, a, b))| == |Lines(text)|
    ensures var line := Lines(text)[i];
            Lines(Bumped(text, a, b))[i] == line <==>
            && KindOf(TableAt(Lines(text), i), line, a) == Unchanged
            && !(EndsInCr(line) && (EndsWith(text, "\n") || i < |Lines(text)| - 1))
  {
    hide BumpLines, Lines, Bumped, TableAt, KindOf, BumpLine, Recut, EndsInCr, EndsWith, Crs, StripCr;
    var line, table := Lines(text)[i], TableAt(Lines(text), i);
    OtherLinesStay(text, a, b, i);
    BumpedLines(text, a, b);
    BumpLinesAt("", Lines(text), a, b, [], i);
    assert [] + Lines(text) == Lines(text);
    RecutAt(BumpLines("", Lines(text), a, b), EndsWith(text, "\n"), i);
    LinesHold(text, i);
    BumpLineShape(table, line, a, b);
    StripCrExact(BumpLine(table, line, a, b));
    CrsBumpLine(table, line, a, b);
    CrsStrip(BumpLine(table, line, a, b));
  }

  /** In particular, a manifest without CRLF comes back when the other version is quoted nowhere in it. */
  lemma BumpThereAndBack(text: string, a: string, b: string)
    requires !Occurs(text, "\r\n") && NotYet(text, b)
    requires '"' !in a && '"' !in b && Clean(a) && Clean(b)
    ensures Bumped(Bumped(text, a, b), b, a) == text
  {
    hide BumpLines, Lines, Join, Occurs;
    DoubledHasCrlf(text);
    BumpedLines(text, a, b);
    var lines := Lines(text);
    forall i | 0 <= i < |lines| ensures NotYet(lines[i], b) {
      LinesHold(text, i);
    }
    LinesRoundTrip("", "", lines, a, b);
    RejoinExact(text);
  }
}

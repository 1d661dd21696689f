/** What a bump does to each line of a manifest, said of the text and not of the rewriter's own classification. */
module ManifestLines {
  import opened Wrappers
  import opened Text
  import opened TextFacts
  import opened Manifest

  // ----- Replacing

  /** Replacing puts the new text between the pieces that the old one separates. */
  lemma {:induction false} ReplaceIsSplitJoin(s: string, from: string, to: string)
    requires from != ""
    ensures Replace(s, from, to) == JoinBy(Split(s, from), to)
    decreases |s|
  {
    hide Split, JoinBy, Replace, Occurs;
    ReplaceStep(s, from, to);
    if s == "" {
      NothingSplit(from);
    } else if from <= s {
      ReplaceIsSplitJoin(s[|from|..], from, to);
      SplitAtFront(s, from);
      JoinCons("", Split(s[|from|..], from), to);
      assert "" + to == to;
    } else {
      ReplaceIsSplitJoin(s[1..], from, to);
      SplitPrepend(s, from);
      JoinPrepend(s[0], Split(s[1..], from), to);
    }
  }

  lemma ReplaceStep(s: string, from: string, to: string)
    requires from != ""
    ensures Replace(s, from, to) ==
            if s == "" then ""
            else if from <= s then to + Replace(s[|from|..], from, to)
            else [s[0]] + Replace(s[1..], from, to)
  {
  }

  lemma SplitAtFront(s: string, from: string)
    requires from != "" && from <= s
    ensures Split(s, from) == [""] + Split(s[|from|..], from)
  {
    hide Find, Occurs;
    FoundFirst(s, from);
    assert s[..0] == "" && s[0 + |from|..] == s[|from|..];
  }

  lemma JoinCons(first: string, rest: seq<string>, to: string)
    requires rest != []
    ensures JoinBy([first] + rest, to) == first + to + JoinBy(rest, to)
  {
    assert ([first] + rest)[1..] == rest;
  }

  lemma JoinPrepend(c: char, pieces: seq<string>, to: string)
    requires pieces != []
    ensures JoinBy([[c] + pieces[0]] + pieces[1..], to) == [c] + JoinBy(pieces, to)
  {
    var all := [[c] + pieces[0]] + pieces[1..];
    assert all[1..] == pieces[1..];
    if |pieces| > 1 {
      Regroup([c], pieces[0] + to, JoinBy(pieces[1..], to));
      Regroup([c], pieces[0], to);
    }
  }

  lemma NothingSplit(from: string)
    requires from != ""
    ensures Split("", from) == [""] && forall to :: JoinBy([""], to) == ""
  {
  }

  lemma FoundFirst(s: string, from: string)
    requires from <= s
    ensures Find(s, from) == Some(0)
  {
    assert MatchesAt(s, from, 0);
  }

  lemma MatchInTail(s: string, from: string, i: nat)
    requires s != ""
    ensures MatchesAt(s, from, i + 1) <==> MatchesAt(s[1..], from, i)
  {
    if i + |from| <= |s| - 1 {
      assert s[1..][i..i + |from|] == s[i + 1..i + 1 + |from|];
    }
  }

  /** Where nothing starts at the front, the first occurrence is that of the tail. */
  lemma FoundInTail(s: string, from: string)
    requires from != "" && s != "" && !(from <= s)
    ensures Find(s, from) == match Find(s[1..], from) { case None => None case Some(i) => Some(i + 1) }
  {
    assert !MatchesAt(s, from, 0);
    var here, there := Find(s, from), Find(s[1..], from);
    if here.Some? {
      MatchInTail(s, from, here.value - 1);
    }
    if there.Some? {
      MatchInTail(s, from, there.value);
    }
  }

  /** A character that no occurrence starts at goes to the first piece. */
  lemma SplitPrepend(s: string, from: string)
    requires from != "" && s != "" && !(from <= s)
    ensures var rest := Split(s[1..], from); Split(s, from) == [[s[0]] + rest[0]] + rest[1..]
  {
    hide Find, Occurs, MatchesAt, Split;
    FoundInTail(s, from);
    SplitIs(s, from);
    SplitIs(s[1..], from);
    var found := Find(s[1..], from);
    if found.Some? {
      var i := found.value;
      assert s[..i + 1] == [s[0]] + s[1..][..i];
      assert s[i + 1 + |from|..] == s[1..][i + |from|..];
    } else {
      assert s == [s[0]] + s[1..];
    }
  }

  lemma SplitIs(s: string, from: string)
    requires from != ""
    ensures match Find(s, from)
            case None => Split(s, from) == [s]
            case Some(i) => i + |from| <= |s| && Split(s, from) == [s[..i]] + Split(s[i + |from|..], from)
  {
  }

  // ----- Line ends

  /** A line ends at a newline or at CRLF, which is not part of it. */
  lemma LineEnds(line: string, rest: string)
    requires '\n' !in line
    ensures Lines(line + "\r\n" + rest) == [line] + Lines(rest)
    ensures (line == "" || line[|line| - 1] != '\r') ==> Lines(line + "\n" + rest) == [line] + Lines(rest)
  {
    hide Lines;
    LinesCons(line + "\r", rest);
    StrippedOfCr(line);
    assert line + "\r" + "\n" + rest == line + "\r\n" + rest;
    LinesCons(line, rest);
  }

  lemma StrippedOfCr(line: string)
    ensures StripCr(line + "\r") == line
    ensures (line == "" || line[|line| - 1] != '\r') ==> StripCr(line) == line
  {
  }

  // ----- One line

  /** The trimmed line stands in square brackets. */
  predicate Bracketed(line: string) {
    var t := Trim(line);
    |t| > 1 && t[0] == '[' && t[|t| - 1] == ']'
  }

  /** The nearest bracketed line at or above the `i`-th reads `h`. */
  ghost predicate UnderHeader(lines: seq<string>, i: nat, h: string) {
    exists k: nat :: HeaderAt(lines, i, k) && Trim(lines[k]) == h
  }

  ghost predicate HeaderAt(lines: seq<string>, i: nat, k: nat) {
    k <= i < |lines| && Bracketed(lines[k]) && forall j | k < j <= i :: !Bracketed(lines[j])
  }

  lemma {:induction false} TableIs(lines: seq<string>, i: nat, h: string)
    requires i < |lines| && h != ""
    ensures TableAt(lines, i) == h <==> UnderHeader(lines, i, h)
  {
    hide Trim;
    BracketedIsHeader(lines[i]);
    if Bracketed(lines[i]) {
      assert HeaderAt(lines, i, i);
    } else if i > 0 {
      TableIs(lines, i - 1, h);
      if k: nat :| HeaderAt(lines, i - 1, k) && Trim(lines[k]) == h {
        assert HeaderAt(lines, i, k);
      }
      if k: nat :| HeaderAt(lines, i, k) && Trim(lines[k]) == h {
        assert HeaderAt(lines, i - 1, k);
      }
    }
  }

  lemma BracketedIsHeader(line: string)
    ensures IsHeader(Trim(line)) <==> Bracketed(line)
  {
    hide Trim;
    var t := Trim(line);
    if EndsWith(t, "]") {
      assert t[|t| - 1..][0] == ']';
    }
    if Bracketed(line) {
      assert t[|t| - 1..] == "]";
    }
  }

  /** A quoted text is found in a line exactly when it is found in the trimmed line: quotes are no white space. */
  lemma QuotedInTrimmed(line: string, x: string)
    ensures Occurs(line, Quoted(x)) <==> Occurs(Trim(line), Quoted(x))
  {
    hide Trim, Quoted;
    if Occurs(Trim(line), Quoted(x)) {
      TrimmedOccurs(line, Quoted(x));
    }
    if Occurs(line, Quoted(x)) {
      var before, after := TrimParts(line);
      var i: nat :| i <= |line| && MatchesAt(line, Quoted(x), i);
      QuotedInside(before, Trim(line), after, x, i);
    }
  }

  lemma QuotedInside(before: string, core: string, after: string, x: string, i: nat)
    requires Blank(before) && Blank(after) && MatchesAt(before + core + after, Quoted(x), i)
    ensures Occurs(core, Quoted(x))
  {
    hide IsWhitespace;
    var line := before + core + after;
    var last := i + |x| + 1;
    QuotesAtEnds(line, x, i);
    QuoteIsNoBlank();
    OutsideIsBlank(before, core, after);
    var j := i - |before|;
    assert core[j..j + |x| + 2] == line[i..i + |x| + 2];
    assert MatchesAt(core, Quoted(x), j);
  }

  lemma QuotesAtEnds(line: string, x: string, i: nat)
    requires MatchesAt(line, Quoted(x), i)
    ensures |Quoted(x)| == |x| + 2 && line[i] == '"' && line[i + |x| + 1] == '"'
  {
    assert line[i..i + |x| + 2][0] == line[i] && line[i..i + |x| + 2][|x| + 1] == line[i + |x| + 1];
  }

  lemma QuoteIsNoBlank()
    ensures !IsWhitespace('"')
  {
  }

  /** The line holds the version as a pin. */
  ghost predicate IsPin(line: string, a: string) {
    Occurs(line, "\"" + "=" + a + "\"")
  }

  /** The line is the version of the workspace's packages: under that header, and no pin. */
  ghost predicate IsVersion(lines: seq<string>, i: nat, a: string)
    requires i < |lines|
  {
    && UnderHeader(lines, i, "[workspace.package]")
    && "version" <= Trim(lines[i]) && Occurs(lines[i], "\"" + a + "\"") && !IsPin(lines[i], a)
  }

  lemma KindIs(lines: seq<string>, i: nat, a: string)
    requires i < |lines|
    ensures KindOf(TableAt(lines, i), lines[i], a) ==
            if IsPin(lines[i], a) then Pin else if IsVersion(lines, i, a) then PackageVersion else Unchanged
  {
    hide Trim, TableAt, UnderHeader, Occurs;
    TableIs(lines, i, "[workspace.package]");
    QuotedInTrimmed(lines[i], a);
    QuotedIs(a);
  }

  /**
   What each line comes out as, for every text: with each pin of the old version moved, if it holds one; with the old
   version replaced, if it is the version of the workspace's packages; and as it was otherwise.
   */
  lemma LineComesOut(lines: seq<string>, a: string, b: string, i: nat)
    requires i < |lines|
    ensures BumpLines("", lines, a, b)[i] ==
            if IsPin(lines[i], a) then Replace(lines[i], "\"" + "=" + a + "\"", "\"" + "=" + b + "\"")
            else if IsVersion(lines, i, a) then Replace(lines[i], "\"" + a + "\"", "\"" + b + "\"")
            else lines[i]
  {
    hide Trim, TableAt, IsPin, IsVersion, Replace, KindOf, BumpLines, Quoted;
    BumpLinesAt("", lines, a, b, [], i);
    assert [] + lines == lines;
    KindIs(lines, i, a);
    QuotedIs(a);
    QuotedIs(b);
  }

  lemma QuotedIs(x: string)
    ensures Quoted(x) == "\"" + x + "\"" && Quoted("=" + x) == "\"" + "=" + x + "\""
  {
  }

  /** The whole text: its lines come out so, in order, joined by newlines, with a final newline if there was one. */
  lemma TextComesOut(text: string, a: string, b: string) returns (out: seq<string>)
    ensures Bumped(text, a, b) == JoinBy(out, "\n") + (if text != "" && text[|text| - 1] == '\n' then "\n" else "")
    ensures |out| == |Lines(text)|
    ensures forall i | 0 <= i < |out| ::
              out[i] ==
              if IsPin(Lines(text)[i], a) then Replace(Lines(text)[i], "\"" + "=" + a + "\"", "\"" + "=" + b + "\"")
              else if IsVersion(Lines(text), i, a) then Replace(Lines(text)[i], "\"" + a + "\"", "\"" + b + "\"")
              else Lines(text)[i]
  {
    hide IsPin, IsVersion, Replace, BumpLines, Lines;
    out := BumpLines("", Lines(text), a, b);
    forall i | 0 <= i < |out|
      ensures out[i] ==
              if IsPin(Lines(text)[i], a) then Replace(Lines(text)[i], "\"" + "=" + a + "\"", "\"" + "=" + b + "\"")
              else if IsVersion(Lines(text), i, a) then Replace(Lines(text)[i], "\"" + a + "\"", "\"" + b + "\"")
              else Lines(text)[i]
    {
      LineComesOut(Lines(text), a, b, i);
    }
    JoinIs(out);
    assert EndsWith(text, "\n") <==> text != "" && text[|text| - 1] == '\n';
  }

  lemma {:induction false} JoinIs(lines: seq<string>)
    ensures Join(lines) == JoinBy(lines, "\n")
  {
    if |lines| > 1 {
      JoinIs(lines[1..]);
    }
  }

  // ----- The list of changes

  /** What the line is reported as. */
  ghost predicate ReportedAs(lines: seq<string>, a: string, change: Change) {
    && 0 < change.number <= |lines|
    && match change.kind {
         case Pin => IsPin(lines[change.number - 1], a)
         case PackageVersion => IsVersion(lines, change.number - 1, a)
         case Unchanged => false
       }
  }

  /** The changes below `done` lines, as they are and in order. */
  lemma {:induction false} ChangesFrom(lines: seq<string>, a: string, done: nat)
    requires done <= |lines|
    ensures var table := if done == 0 then "" else TableAt(lines, done - 1);
            var changes := ChangesIn(table, lines[done..], a, done);
            && (forall c :: c in changes <==> done < c.number && ReportedAs(lines, a, c))
            && (forall i, j | 0 <= i < j < |changes| :: changes[i].number < changes[j].number)
    decreases |lines| - done
  {
    hide KindOf, IsPin, IsVersion, TableAfter;
    if done < |lines| {
      var table := if done == 0 then "" else TableAt(lines, done - 1);
      assert lines[done..][0] == lines[done] && lines[done..][1..] == lines[done + 1..];
      assert TableAt(lines, done) == TableAfter(table, lines[done]);
      ChangesFrom(lines, a, done + 1);
      KindIs(lines, done, a);
      var kind := KindOf(TableAt(lines, done), lines[done], a);
      var rest := ChangesIn(TableAt(lines, done), lines[done + 1..], a, done + 1);
      ChangesHead(lines, a, done, kind, rest);
    }
  }

  lemma ChangesHead(lines: seq<string>, a: string, done: nat, kind: Kind, rest: seq<Change>)
    requires done < |lines|
    requires kind == if IsPin(lines[done], a) then Pin else if IsVersion(lines, done, a) then PackageVersion else Unchanged
    requires forall c :: c in rest <==> done + 1 < c.number && ReportedAs(lines, a, c)
    requires forall i, j | 0 <= i < j < |rest| :: rest[i].number < rest[j].number
    ensures var changes := (if kind == Unchanged then [] else [Change(done + 1, kind)]) + rest;
            && (forall c :: c in changes <==> done < c.number && ReportedAs(lines, a, c))
            && (forall i, j | 0 <= i < j < |changes| :: changes[i].number < changes[j].number)
  {
    hide ReportedAs, IsPin, IsVersion;
    HeadReported(lines, a, done, kind);
    if kind == Unchanged {
      assert [] + rest == rest;
    } else {
      FirstChange(Change(done + 1, kind), rest);
    }
  }

  lemma FirstChange(first: Change, rest: seq<Change>)
    requires forall c | c in rest :: first.number < c.number
    requires forall i, j | 0 <= i < j < |rest| :: rest[i].number < rest[j].number
    ensures forall c :: c in [first] + rest <==> c == first || c in rest
    ensures forall i, j | 0 <= i < j < |[first] + rest| :: ([first] + rest)[i].number < ([first] + rest)[j].number
  {
    var changes := [first] + rest;
    forall i, j | 0 <= i < j < |changes| ensures changes[i].number < changes[j].number {
      assert changes[j] == rest[j - 1] && rest[j - 1] in rest;
      assert i > 0 ==> changes[i] == rest[i - 1];
    }
  }

  lemma HeadReported(lines: seq<string>, a: string, done: nat, kind: Kind)
    requires done < |lines|
    requires kind == if IsPin(lines[done], a) then Pin else if IsVersion(lines, done, a) then PackageVersion else Unchanged
    ensures forall c: Change | c.number == done + 1 :: ReportedAs(lines, a, c) <==> kind != Unchanged && c.kind == kind
  {
    hide UnderHeader;
  }

  /** The changes reported are exactly the pins and the workspace's version, in the order of their lines, numbered from 1. */
  lemma ChangesAre(lines: seq<string>, a: string)
    ensures var changes := ChangesIn("", lines, a, 0);
            && (forall c :: c in changes <==> ReportedAs(lines, a, c))
            && (forall i, j | 0 <= i < j < |changes| :: changes[i].number < changes[j].number)
  {
    hide KindOf, IsPin, IsVersion;
    ChangesFrom(lines, a, 0);
    assert lines[0..] == lines;
  }
}

/** The stripped line's positions as bytes of a text: where `&str` may be sliced. */
module LineBytes {
  import opened Utf8
  import opened RustLine
  import opened StripLine

  /** The bytes of a text, each as a `char` below 256. */
  function LineOf(text: string): (line: string)
    ensures |line| == |EncodeText(text)|
  {
    var bytes := EncodeText(text);
    seq(|bytes|, i requires 0 <= i < |bytes| => bytes[i] as char)
  }

  lemma CharBytes(c: char)
    ensures var s := EncodeChar(c);
            && (s[0] < 0x80 || s[0] >= 0xC0) && (|s| > 1 ==> s[0] >= 0xC0)
            && forall i | 0 < i < |s| :: 0x80 <= s[i] < 0xC0
  {
  }

  lemma LineCons(text: string)
    requires text != ""
    ensures var s, rest := EncodeChar(text[0]), LineOf(text[1..]);
            && |LineOf(text)| == |s| + |rest|
            && (forall i | 0 <= i < |s| :: LineOf(text)[i] as int == s[i])
            && (forall i | 0 <= i < |rest| :: LineOf(text)[|s| + i] == rest[i])
  {
    hide EncodeChar;
  }

  /** How many bytes the first `k` characters take. */
  lemma PrefixBytes(text: string, k: nat)
    requires 0 < k <= |text|
    ensures |EncodeText(text[..k])| == |EncodeChar(text[0])| + |EncodeText(text[1..][..k - 1])|
  {
    hide EncodeChar;
    assert text[..k][1..] == text[1..][..k - 1];
  }

  /** The bytes of a text are well encoded, and none of its characters starts with a continuation byte. */
  lemma {:induction false} TextIsWellEncoded(text: string)
    ensures WellEncoded(LineOf(text)) && (text != "" ==> !IsContinuation(LineOf(text)[0]))
  {
    hide EncodeChar, LineOf;
    if text != "" {
      CharBytes(text[0]);
      LineCons(text);
      TextIsWellEncoded(text[1..]);
      var line, rest, n := LineOf(text), LineOf(text[1..]), |EncodeChar(text[0])|;
      forall i | 0 <= i < |line| && IsContinuation(line[i]) ensures i > 0 && line[i - 1] as int >= 0x80 {
        if i >= n {
          assert line[n + (i - n)] == rest[i - n];
          assert IsContinuation(rest[i - n]);
          assert line[n + (i - n - 1)] == rest[i - n - 1];
        }
      }
    } else {
      NoBytes();
    }
  }

  lemma NoBytes()
    ensures LineOf("") == ""
  {
  }

  /** Some number of the text's characters takes `i` bytes. */
  ghost predicate EndsAt(text: string, i: nat) {
    exists k: nat | k <= |text| :: |EncodeText(text[..k])| == i
  }

  lemma EndsAtStep(text: string, i: nat)
    requires text != ""
    ensures var n := |EncodeChar(text[0])|;
            EndsAt(text, i) <==> i == 0 || (i >= n && EndsAt(text[1..], i - n))
  {
    hide EncodeChar;
    assert text[..0] == "";
    var n := |EncodeChar(text[0])|;
    if k: nat :| k <= |text| && |EncodeText(text[..k])| == i {
      if k > 0 {
        PrefixBytes(text, k);
        assert EndsAt(text[1..], i - n);
      }
    }
    if i == 0 {
      assert |EncodeText(text[..0])| == 0;
    }
    if i >= n && EndsAt(text[1..], i - n) {
      var k: nat :| k <= |text[1..]| && |EncodeText(text[1..][..k])| == i - n;
      PrefixBytes(text, k + 1);
    }
  }

  /** The positions that count as character boundaries are exactly those between the characters of the text. */
  lemma {:induction false} BoundariesAre(text: string, i: nat)
    requires i <= |LineOf(text)|
    ensures IsCharBoundary(LineOf(text), i) <==> EndsAt(text, i)
  {
    hide EncodeChar, LineOf, EncodeText;
    if text == "" {
      NoBytes();
      NothingEnds();
    } else {
      var line, rest, n := LineOf(text), LineOf(text[1..]), |EncodeChar(text[0])|;
      CharBytes(text[0]);
      LineCons(text);
      EndsAtStep(text, i);
      if i >= n {
        BoundariesAre(text[1..], i - n);
        TextIsWellEncoded(text[1..]);
        assert i < |line| ==> line[n + (i - n)] == rest[i - n];
      } else if i > 0 {
        assert IsContinuation(line[i]);
      }
    }
  }

  lemma NothingEnds()
    ensures EndsAt("", 0)
  {
    assert ""[..0] == "";
    assert |EncodeText(""[..0])| == 0;
  }

  // ----- Character literals

  /** The bytes of a text are those of its first character, and then the rest's. */
  lemma LineFirst(c: char, text: string)
    ensures LineOf([c] + text) == LineOf([c]) + LineOf(text)
  {
    hide LineOf, EncodeChar;
    assert ([c] + text)[1..] == text && [c][1..] == "";
    LineCons([c] + text);
    LineCons([c]);
    NoBytes();
  }

  lemma QuoteLine()
    ensures LineOf("'") == "'"
  {
    assert "'"[1..] == "";
    LineCons("'");
    NoBytes();
  }

  lemma WideBytes(c: char)
    requires c as int >= 0x80
    ensures |LineOf([c])| > 1 && forall i | 0 <= i < |LineOf([c])| :: LineOf([c])[i] as int >= 0x80
  {
    hide LineOf;
    assert [c][1..] == "";
    LineCons([c]);
    NoBytes();
    CharBytes(c);
  }

  /** The literal of a character above ASCII, in bytes, is the token for such literals. */
  lemma WideLiteralIs(c: char, before: string, rest: string)
    requires c as int >= 0x80
    ensures var t := WideLit(LineOf([c])); t.Text() == LineOf("'" + [c] + "'") && LitFits(before, t, rest)
  {
    hide LineOf;
    WideBytes(c);
    QuoteLine();
    LineFirst(c, "'");
    LineFirst('\'', [c] + "'");
    assert ['\''] + ([c] + "'") == "'" + [c] + "'" && ['\''] == "'";
    assert "'" + (LineOf([c]) + "'") == "'" + LineOf([c]) + "'";
  }
}

/** The header line of a chunk, byte by byte: which lines the decoder takes for a size. */
module ChunkHeader {
  import opened Wrappers
  import opened Text
  import opened TextFacts
  import opened Utf8
  import opened Chunked

  /** A size in hexadecimal, blanks around it, and nothing or a semicolon with anything behind it, in UTF-8. */
  ghost predicate SizeLine(line: seq<byte>, n: nat) {
    exists before, size, after, rest :: SizeLineOf(line, n, before, size, after, rest)
  }

  ghost predicate SizeLineOf(line: seq<byte>, n: nat, before: string, size: string, after: string, rest: string) {
    && line == EncodeText(before + size + after + rest)
    && Blank(before) && Blank(after) && SpellsHex(size, n) && (rest == "" || rest[0] == ';')
  }

  /** A header line announces a size exactly when it is such a line and the size fits in 64 bits. */
  lemma ChunkSizeExactly(line: seq<byte>, n: nat)
    ensures ChunkSize(line) == Some(n) <==> SizeLine(line, n) && n < 0x1_0000_0000_0000_0000
  {
    hide FromUtf8, EncodeText, Split, Trim, ParseUnsigned, SpellsHex, Blank;
    if ChunkSize(line) == Some(n) {
      var header := FromUtf8(line).value;
      Utf8Exactly(line, header);
      var head, rest := FirstPiece(header);
      var before, after := TrimParts(head);
      ParseHexExactly(Trim(head), USIZE_MAX, n);
      assert SizeLineOf(line, n, before, Trim(head), after, rest);
    }
    if SizeLine(line, n) && n < 0x1_0000_0000_0000_0000 {
      var before, size, after, rest :| SizeLineOf(line, n, before, size, after, rest);
      Utf8Exactly(line, before + size + after + rest);
      SizeIsTight(size, n);
      PieceOf(before, size, after, rest);
      TrimOf(before, size, after);
      ParseHexExactly(size, USIZE_MAX, n);
    }
  }

  /** What is in front of the first semicolon, and the rest. */
  lemma FirstPiece(header: string) returns (head: string, rest: string)
    ensures header == head + rest && head == Split(header, ";")[0] && (rest == "" || rest[0] == ';')
  {
    match Find(header, ";")
    case None =>
      head, rest := header, "";
    case Some(i) =>
      head, rest := header[..i], header[i..];
      assert header[i..i + 1][0] == header[i];
  }

  lemma SizeIsTight(size: string, n: nat)
    requires SpellsHex(size, n)
    ensures Tight(size) && ';' !in size
  {
    var digits :| digits != "" && HexDigits(digits, n) && (size == digits || size == "+" + digits);
    HexCharacters(digits, n);
    assert digits[0] in digits && digits[|digits| - 1] in digits;
    assert size[|size| - 1] == digits[|digits| - 1];
  }

  lemma PieceOf(before: string, size: string, after: string, rest: string)
    requires Blank(before) && Blank(after) && ';' !in size && (rest == "" || rest[0] == ';')
    ensures Split(before + size + after + rest, ";")[0] == before + size + after
  {
    var head := before + size + after;
    NoSemicolon(before);
    NoSemicolon(after);
    assert ';' !in head;
    var tail := if rest == "" then "" else rest[1..];
    FirstCharacter(head, ';', tail);
    if rest != "" {
      assert head + rest == head + [';'] + tail;
      SplitCons(head, tail, ";");
    } else {
      assert head + rest == head;
    }
  }

  lemma NoSemicolon(s: string)
    requires Blank(s)
    ensures ';' !in s
  {
  }
}

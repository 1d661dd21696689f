/** The chunked transfer coding (section 7.1 of RFC 9112) as the JWKS client decodes it. */
module Chunked {
  import opened Wrappers
  import opened Text
  import opened Utf8

  const MAX_JWKS_BYTES: nat := 256 * 1024

  const USIZE_MAX: nat := 0xFFFF_FFFF_FFFF_FFFF

  const CRLF: seq<byte> := [0x0D, 0x0A]

  /** The size a chunk header line announces; an extension after `;` is ignored. */
  function ChunkSize(line: seq<byte>): Option<nat> {
    match FromUtf8(line)
    case None => None
    case Some(header) => ParseUnsigned(Trim(Split(header, ";")[0]), 16, USIZE_MAX)
  }

  /** A chunk header read off the front of `body`: the announced size and what follows the line. */
  function ReadHeader(body: seq<byte>): (r: Option<(nat, seq<byte>)>)
    ensures r.Some? ==> |r.value.1| + 2 <= |body|
  {
    match Find(body, CRLF)
    case None => None
    case Some(lineEnd) =>
      match ChunkSize(body[..lineEnd])
      case None => None
      case Some(size) => Some((size, body[lineEnd + 2..]))
  }

  /** What `body` decodes to when at most `room` more bytes may be accepted. */
  function Decoded(body: seq<byte>, room: nat): (r: Option<seq<byte>>)
    ensures r.Some? ==> |r.value| <= room
    decreases |body|
  {
    match ReadHeader(body)
    case None => None
    case Some((size, rest)) =>
      if size == 0 then Some([])
      else if size > room || size + 2 > |rest| then None
      else
        match Decoded(rest[size + 2..], room - size)
        case None => None
        case Some(tail) => Some(rest[..size] + tail)
  }

  /** `prefix` put in front of what was decoded. */
  function Prepend(prefix: seq<byte>, r: Option<seq<byte>>): Option<seq<byte>> {
    match r
    case None => None
    case Some(tail) => Some(prefix + tail)
  }

  lemma PrependTwice(a: seq<byte>, b: seq<byte>, r: Option<seq<byte>>)
    ensures Prepend(a, Prepend(b, r)) == Prepend(a + b, r)
    ensures Prepend([], r) == r
  {
    if r.Some? {
      assert a + (b + r.value) == a + b + r.value;
      assert [] + r.value == r.value;
    }
  }

  /** The decoding loop: `out` grows by one chunk while `rest` shrinks past it. */
  method Dechunk(body: seq<byte>) returns (r: Option<seq<byte>>)
    ensures r == Decoded(body, MAX_JWKS_BYTES)
  {
    hide ReadHeader;
    var out: seq<byte> := [];
    var rest := body;
    PrependTwice([], [], Decoded(body, MAX_JWKS_BYTES));
    while true
      invariant |out| <= MAX_JWKS_BYTES
      invariant Decoded(body, MAX_JWKS_BYTES) == Prepend(out, Decoded(rest, MAX_JWKS_BYTES - |out|))
      decreases |rest|
    {
      var header := ReadHeader(rest);
      if header.None? {
        return None;
      }
      var size := header.value.0;
      rest := header.value.1;
      if size == 0 {
        assert out + [] == out;
        return Some(out);
      }
      if |out| + size > MAX_JWKS_BYTES {
        return None;
      }
      // `size + 2` cannot overflow: the size is within the cap here.
      if size > |rest| || size + 2 > |rest| {
        return None;
      }
      PrependTwice(out, rest[..size], Decoded(rest[size + 2..], MAX_JWKS_BYTES - |out| - size));
      out := out + rest[..size];
      rest := rest[size + 2..];
    }
  }

  /** One chunk on the wire: its header line, its data, and the two bytes that follow the data. */
  datatype Chunk = Chunk(line: seq<byte>, data: seq<byte>, terminator: seq<byte>) {
    ghost predicate Valid() {
      && !Occurs(line, CRLF)
      && data != []
      && ChunkSize(line) == Some(|data|)
      && |terminator| == 2
    }

    function Wire(): seq<byte> {
      line + CRLF + data + terminator
    }
  }

  function Wires(chunks: seq<Chunk>): seq<byte> {
    if chunks == [] then [] else chunks[0].Wire() + Wires(chunks[1..])
  }

  function Payload(chunks: seq<Chunk>): seq<byte> {
    if chunks == [] then [] else chunks[0].data + Payload(chunks[1..])
  }

  /** `body` is `chunks`, then a last chunk of size zero, then anything (a trailer section is not read). */
  ghost predicate Framed(body: seq<byte>, chunks: seq<Chunk>, last: seq<byte>, trailer: seq<byte>) {
    && (forall c | c in chunks :: c.Valid())
    && !Occurs(last, CRLF)
    && ChunkSize(last) == Some(0)
    && body == Wires(chunks) + (last + CRLF + trailer)
  }

  /** A header line without a CRLF ends exactly where the first CRLF is. */
  lemma LineEnds(line: seq<byte>, rest: seq<byte>)
    requires !Occurs(line, CRLF)
    ensures Find(line + CRLF + rest, CRLF) == Some(|line|)
  {
    var s := line + CRLF + rest;
    assert MatchesAt(s, CRLF, |line|);
    var i := Find(s, CRLF).value;
    if i < |line| {
      assert s[i] == 0x0D && s[i + 1] == 0x0A by { assert s[i..i + 2] == CRLF; }
      assert i + 1 < |line|;
      assert line[i..i + 2] == CRLF;
      assert MatchesAt(line, CRLF, i);
      assert false;
    }
  }

  lemma HeaderReads(line: seq<byte>, rest: seq<byte>)
    requires !Occurs(line, CRLF) && ChunkSize(line).Some?
    ensures ReadHeader(line + CRLF + rest) == Some((ChunkSize(line).value, rest))
  {
    LineEnds(line, rest);
    var s := line + CRLF + rest;
    assert s[..|line|] == line;
    assert s[|line| + 2..] == rest;
  }

  /** Every framed body whose payload fits decodes to that payload. */
  lemma {:induction false} FramedDecodes(
      body: seq<byte>, room: nat, chunks: seq<Chunk>, last: seq<byte>, trailer: seq<byte>)
    requires Framed(body, chunks, last, trailer)
    ensures Decoded(body, room) == if |Payload(chunks)| <= room then Some(Payload(chunks)) else None
    decreases |chunks|
  {
    hide ReadHeader, ChunkSize;
    if chunks == [] {
      assert body == last + CRLF + trailer;
      HeaderReads(last, trailer);
    } else {
      var c := chunks[0];
      assert c in chunks;
      var after := Wires(chunks[1..]) + (last + CRLF + trailer);
      var rest := c.data + c.terminator + after;
      assert body == c.line + CRLF + rest;
      HeaderReads(c.line, rest);
      assert rest[..|c.data|] == c.data;
      assert rest[|c.data| + 2..] == after;
      if |c.data| <= room {
        FramedDecodes(after, room - |c.data|, chunks[1..], last, trailer);
      }
    }
  }

  /** The first CRLF cuts `body` into a line without one and the rest. */
  lemma HeaderInverts(body: seq<byte>) returns (line: seq<byte>)
    requires ReadHeader(body).Some?
    ensures !Occurs(line, CRLF) && ChunkSize(line) == Some(ReadHeader(body).value.0)
    ensures body == line + CRLF + ReadHeader(body).value.1
  {
    var e := Find(body, CRLF).value;
    line := body[..e];
    if i: nat :| i <= e && MatchesAt(line, CRLF, i) {
      assert body[i..i + 2] == line[i..i + 2];
      assert MatchesAt(body, CRLF, i);
      assert false;
    }
    assert body[e..e + 2] == CRLF;
  }

  /** Whatever is accepted is framed, and its result is the chunks' data in order. */
  lemma {:induction false} DecodedIsFramed(body: seq<byte>, room: nat)
    returns (chunks: seq<Chunk>, last: seq<byte>, trailer: seq<byte>)
    requires Decoded(body, room).Some?
    ensures Framed(body, chunks, last, trailer)
    ensures Decoded(body, room).value == Payload(chunks)
    decreases |body|
  {
    hide ReadHeader, ChunkSize;
    var line := HeaderInverts(body);
    var (size, rest) := ReadHeader(body).value;
    if size == 0 {
      chunks, last, trailer := [], line, rest;
      assert Wires(chunks) + (last + CRLF + trailer) == body;
    } else {
      var c := Chunk(line, rest[..size], rest[size..size + 2]);
      var more;
      more, last, trailer := DecodedIsFramed(rest[size + 2..], room - size);
      chunks := [c] + more;
      FramedCons(body, c, more, last, trailer);
    }
  }

  lemma FramedCons(body: seq<byte>, c: Chunk, more: seq<Chunk>, last: seq<byte>, trailer: seq<byte>)
    requires c.Valid() && |c.Wire()| <= |body| && body[..|c.Wire()|] == c.Wire()
    requires Framed(body[|c.Wire()|..], more, last, trailer)
    ensures Framed(body, [c] + more, last, trailer)
    ensures Payload([c] + more) == c.data + Payload(more)
  {
    var chunks := [c] + more;
    assert chunks[1..] == more;
    var end := last + CRLF + trailer;
    assert body == c.Wire() + body[|c.Wire()|..];
    assert Wires(chunks) + end == c.Wire() + (Wires(more) + end);
  }

  /** The decoder accepts a body exactly when it is framed within the cap, and answers its payload. */
  lemma DechunkExact(body: seq<byte>, out: seq<byte>)
    ensures Decoded(body, MAX_JWKS_BYTES) == Some(out) <==>
            exists chunks, last, trailer ::
              && Framed(body, chunks, last, trailer)
              && Payload(chunks) == out
              && |out| <= MAX_JWKS_BYTES
  {
    if Decoded(body, MAX_JWKS_BYTES) == Some(out) {
      var chunks, last, trailer := DecodedIsFramed(body, MAX_JWKS_BYTES);
    }
    if chunks, last, trailer :|
        && Framed(body, chunks, last, trailer) && Payload(chunks) == out && |out| <= MAX_JWKS_BYTES {
      FramedDecodes(body, MAX_JWKS_BYTES, chunks, last, trailer);
    }
  }

  // ----- What is skipped after a chunk

  /** Every two bytes the decoder skips after a chunk are the CRLF the standard puts there. */
  predicate SkipsOnlyCrlf(body: seq<byte>)
    decreases |body|
  {
    match ReadHeader(body)
    case None => false
    case Some((size, rest)) =>
      size == 0 || (size + 2 <= |rest| && rest[size..size + 2] == CRLF && SkipsOnlyCrlf(rest[size + 2..]))
  }

  ghost predicate AllEndInCrlf(chunks: seq<Chunk>) {
    forall c | c in chunks :: c.terminator == CRLF
  }

  lemma {:induction false} FramedSkips(body: seq<byte>, chunks: seq<Chunk>, last: seq<byte>, trailer: seq<byte>)
    requires Framed(body, chunks, last, trailer)
    ensures SkipsOnlyCrlf(body) <==> AllEndInCrlf(chunks)
    decreases |chunks|
  {
    hide ReadHeader, ChunkSize;
    if chunks == [] {
      assert body == last + CRLF + trailer;
      HeaderReads(last, trailer);
    } else {
      var c := chunks[0];
      assert c in chunks;
      var after := Wires(chunks[1..]) + (last + CRLF + trailer);
      var rest := c.data + c.terminator + after;
      assert body == c.line + CRLF + rest;
      HeaderReads(c.line, rest);
      assert rest[|c.data|..|c.data| + 2] == c.terminator;
      assert rest[|c.data| + 2..] == after;
      FramedSkips(after, chunks[1..], last, trailer);
      assert forall d | d in chunks :: d == c || d in chunks[1..];
    }
  }

  /** A body is chunks that each end in a CRLF exactly when it is accepted and only CRLFs are skipped in it. */
  lemma TerminatorsExactly(body: seq<byte>, out: seq<byte>)
    ensures (exists chunks, last, trailer ::
               && Framed(body, chunks, last, trailer) && AllEndInCrlf(chunks)
               && Payload(chunks) == out
               && |out| <= MAX_JWKS_BYTES)
            <==> Decoded(body, MAX_JWKS_BYTES) == Some(out) && SkipsOnlyCrlf(body)
  {
    if Decoded(body, MAX_JWKS_BYTES) == Some(out) && SkipsOnlyCrlf(body) {
      var chunks, last, trailer := DecodedIsFramed(body, MAX_JWKS_BYTES);
      FramedSkips(body, chunks, last, trailer);
    }
    if chunks, last, trailer :|
        && Framed(body, chunks, last, trailer) && AllEndInCrlf(chunks)
        && Payload(chunks) == out && |out| <= MAX_JWKS_BYTES {
      FramedDecodes(body, MAX_JWKS_BYTES, chunks, last, trailer);
      FramedSkips(body, chunks, last, trailer);
    }
  }

  // ----- A standard encoder, and that decoding inverts it

  function HexDigit(d: nat): (c: char)
    requires d < 16
    ensures DigitValue(c) == Some(d) && c as int < 0x80 && !IsWhitespace(c) && c != '+' && c != ';'
  {
    "0123456789abcdef"[d]
  }

  function HexText(n: nat): (s: string)
    ensures s != ""
  {
    if n < 16 then [HexDigit(n)] else HexText(n / 16) + [HexDigit(n % 16)]
  }

  /** A chunk extension: empty, or ASCII text that starts with `;` and does not end the line. */
  ghost predicate Extension(ext: string) {
    && IsAscii(ext)
    && (ext == "" || ext[0] == ';')
    && forall i | 0 <= i < |ext| :: ext[i] != '\r'
  }

  lemma {:induction false} HexTextParses(n: nat)
    ensures DigitsValue(HexText(n), 16) == Some(n)
    ensures forall i | 0 <= i < |HexText(n)| ::
              var c := HexText(n)[i]; c as int < 0x80 && !IsWhitespace(c) && c != '+' && c != ';' && c != '\r'
  {
    if n < 16 {
      assert [HexDigit(n)][..0] == "";
    } else {
      HexTextParses(n / 16);
      assert HexText(n)[..|HexText(n)| - 1] == HexText(n / 16);
    }
  }

  lemma HeadBeforeExtension(hex: string, ext: string)
    requires forall i | 0 <= i < |hex| :: hex[i] != ';'
    requires ext == "" || ext[0] == ';'
    ensures Split(hex + ext, ";")[0] == hex
  {
    var header := hex + ext;
    var found := Find(header, ";");
    if ext != "" {
      assert header[|hex|..|hex| + 1] == ";";
      assert MatchesAt(header, ";", |hex|);
    }
    if found.Some? {
      assert header[found.value..found.value + 1] == ";";
      assert header[found.value] == ';';
      assert header[..|hex|] == hex;
    }
  }

  lemma ChunkSizeOfHex(n: nat, ext: string)
    requires n <= USIZE_MAX && Extension(ext)
    ensures IsAscii(HexText(n) + ext)
    ensures ChunkSize(AsciiBytes(HexText(n) + ext)) == Some(n)
    ensures !Occurs(AsciiBytes(HexText(n) + ext), CRLF)
  {
    HexTextParses(n);
    var hex := HexText(n);
    var header := hex + ext;
    hide FromUtf8, Split, DigitsValue, HexText;
    AsciiRoundTrip(header);
    HeadBeforeExtension(hex, ext);
    assert Trim(hex) == hex;
    assert hex[0] != '+';
    assert ParseUnsigned(hex, 16, USIZE_MAX) == Some(n);
    var line := AsciiBytes(header);
    assert forall i | 0 <= i < |line| :: line[i] != 0x0D;
    forall i: nat | i + 2 <= |line| ensures !MatchesAt(line, CRLF, i) {
      assert line[i..i + 2][0] == line[i];
    }
  }

  /** A body cut into pieces, each with its extension, in the chunked coding. */
  function Encode(pieces: seq<(string, seq<byte>)>, trailer: seq<byte>): seq<byte>
    requires forall p | p in pieces :: IsAscii(HexText(|p.1|) + p.0)
  {
    if pieces == [] then [0x30] + CRLF + trailer + CRLF
    else
      AsciiBytes(HexText(|pieces[0].1|) + pieces[0].0) + CRLF + pieces[0].1 + CRLF + Encode(pieces[1..], trailer)
  }

  function Joined(pieces: seq<(string, seq<byte>)>): seq<byte> {
    if pieces == [] then [] else pieces[0].1 + Joined(pieces[1..])
  }

  lemma {:induction false} EncodeIsFramed(pieces: seq<(string, seq<byte>)>, trailer: seq<byte>)
    returns (chunks: seq<Chunk>, last: seq<byte>)
    requires forall p | p in pieces :: Extension(p.0) && p.1 != [] && |p.1| <= USIZE_MAX
    ensures forall p | p in pieces :: IsAscii(HexText(|p.1|) + p.0)
    ensures Framed(Encode(pieces, trailer), chunks, last, trailer + CRLF)
    ensures Payload(chunks) == Joined(pieces)
    decreases |pieces|
  {
    forall p | p in pieces ensures IsAscii(HexText(|p.1|) + p.0) {
      ChunkSizeOfHex(|p.1|, p.0);
    }
    if pieces == [] {
      chunks, last := [], [0x30];
      ChunkSizeOfHex(0, "");
      assert HexText(0) + "" == "0";
      assert AsciiBytes("0") == [0x30];
    } else {
      var p := pieces[0];
      ChunkSizeOfHex(|p.1|, p.0);
      var more;
      more, last := EncodeIsFramed(pieces[1..], trailer);
      var c := Chunk(AsciiBytes(HexText(|p.1|) + p.0), p.1, CRLF);
      chunks := [c] + more;
      assert chunks[1..] == more;
      var end := last + CRLF + (trailer + CRLF);
      assert Wires(chunks) + end == c.Wire() + (Wires(more) + end);
    }
  }

  /** De-chunking inverts chunking: any cut of a body within the cap, any extensions, any trailer. */
  lemma DechunkInvertsEncode(pieces: seq<(string, seq<byte>)>, trailer: seq<byte>)
    requires forall p | p in pieces :: Extension(p.0) && p.1 != [] && |p.1| <= USIZE_MAX
    ensures forall p | p in pieces :: IsAscii(HexText(|p.1|) + p.0)
    ensures Decoded(Encode(pieces, trailer), MAX_JWKS_BYTES) ==
            if |Joined(pieces)| <= MAX_JWKS_BYTES then Some(Joined(pieces)) else None
  {
    var chunks, last := EncodeIsFramed(pieces, trailer);
    FramedDecodes(Encode(pieces, trailer), MAX_JWKS_BYTES, chunks, last, trailer + CRLF);
  }

  /** The two bytes after a chunk are skipped, not compared: RFC 9112 requires a CRLF there, and this has `XY`. */
  lemma ChunkTerminatorIsNotChecked()
    ensures Decoded([0x31, 0x0D, 0x0A, 0x61, 0x58, 0x59, 0x30, 0x0D, 0x0A], MAX_JWKS_BYTES) == Some([0x61])
  {
    hide ReadHeader, ChunkSize;
    var body: seq<byte> := [0x31, 0x0D, 0x0A, 0x61, 0x58, 0x59, 0x30, 0x0D, 0x0A];
    ChunkSizeOfHex(1, "");
    assert HexText(1) + "" == "1" && AsciiBytes("1") == [0x31];
    ChunkSizeOfHex(0, "");
    assert HexText(0) + "" == "0" && AsciiBytes("0") == [0x30];
    var c := Chunk([0x31], [0x61], [0x58, 0x59]);
    assert Wires([c]) == c.Wire() + Wires([]) by { assert [c][1..] == []; }
    assert body == Wires([c]) + ([0x30] + CRLF + []);
    FramedDecodes(body, MAX_JWKS_BYTES, [c], [0x30], []);
    assert Payload([c]) == c.data + Payload([]) by { assert [c][1..] == []; }
    assert Payload([c]) == [0x61];
  }
}

/**
 The HTTP/1.1 response reader behind the JWKS fetch: it buffers reads until the
 head is complete, parses the head, picks a framing and reads the body under a cap.

 The connection is a list of the byte blocks its reads return, then an ending.
 A cut is one such list; the same bytes can arrive in many cuts.
 */
module ResponseReader {
  import opened Wrappers
  import opened Text
  import opened Utf8
  import opened Chunked

  const MAX_HEADER_BYTES: nat := 16 * 1024

  /** The size of the buffer each read fills. */
  const READ_BYTES: nat := 8192

  const CRLF_CRLF: seq<byte> := [0x0D, 0x0A, 0x0D, 0x0A]

  // ----- The peer

  /** How the byte stream ends: a clean close, or a reset. */
  datatype Ending = Closed | Reset

  datatype Received = Data(bytes: seq<byte>) | Eof | Failed

  /** What one read returns: at least one byte, at most a buffer full. */
  type Block = b: seq<byte> | 1 <= |b| <= READ_BYTES witness [0]

  type Cut = seq<Block>

  function Flatten(cut: Cut): seq<byte> {
    if cut == [] then [] else cut[0] + Flatten(cut[1..])
  }

  class Peer {
    var pending: Cut
    const ending: Ending

    constructor (cut: Cut, ending: Ending)
      ensures pending == cut && this.ending == ending
    {
      pending := cut;
      this.ending := ending;
    }

    method Read() returns (r: Received)
      modifies this
      ensures old(pending) != [] ==> r == Data(old(pending)[0]) && pending == old(pending)[1..]
      ensures old(pending) == [] ==> r == (if ending.Closed? then Eof else Failed) && pending == []
    {
      if pending != [] {
        r := Data(pending[0]);
        pending := pending[1..];
      } else if ending.Closed? {
        r := Eof;
      } else {
        r := Failed;
      }
    }
  }

  // ----- The head

  datatype Framing = Length(length: nat) | Chunks | ToEnd

  datatype Head = Head(status: nat, framing: Framing)

  /** `split_once(':')`. */
  function NameAndValue(line: string): Option<(string, string)> {
    match Find(line, ":")
    case None => None
    case Some(i) => Some((line[..i], Trim(line[i + 1..])))
  }

  predicate DeclaresChunked(line: string) {
    match NameAndValue(line)
    case None => false
    case Some((name, value)) =>
      EqIgnoreAsciiCase(name, "transfer-encoding") && Find(ToAsciiLower(value), "chunked").Some?
  }

  function DeclaredLength(line: string): Option<nat> {
    match NameAndValue(line)
    case None => None
    case Some((name, value)) =>
      if EqIgnoreAsciiCase(name, "content-length") then ParseUnsigned(value, 10, USIZE_MAX) else None
  }

  /** The last length among `headers`, or read to the end. */
  function LastLength(headers: seq<string>): Framing {
    if headers == [] then ToEnd
    else
      match DeclaredLength(headers[|headers| - 1])
      case Some(n) => Length(n)
      case None => LastLength(headers[..|headers| - 1])
  }

  /** Chunked wins over every length, wherever the two stand (section 6.3 of RFC 9112). */
  function FramingOf(headers: seq<string>): Framing {
    if exists i | 0 <= i < |headers| :: DeclaresChunked(headers[i]) then Chunks else LastLength(headers)
  }

  function StatusOf(statusLine: string): Option<nat> {
    var parts := Split(statusLine, " ");
    if StartsWith(parts[0], "HTTP/1.") && |parts| > 1 then ParseUnsigned(parts[1], 10, 0xFFFF) else None
  }

  function HeadOf(text: string): Option<Head> {
    var lines := Split(text, "\r\n");
    match StatusOf(lines[0])
    case None => None
    case Some(status) => Some(Head(status, FramingOf(lines[1..])))
  }

  /** A line that names one of the two headers does not name the other. */
  lemma ChunkedIsNotALength(line: string)
    requires DeclaresChunked(line)
    ensures DeclaredLength(line).None?
  {
    var name := NameAndValue(line).value.0;
    assert |ToAsciiLower(name)| == |ToAsciiLower("transfer-encoding")| == 17;
    assert |ToAsciiLower("content-length")| == 14;
  }

  /** The header loop: one pass, updating the framing line by line. */
  method ParseHead(text: string) returns (r: Option<Head>)
    ensures r == HeadOf(text)
  {
    hide DeclaresChunked, DeclaredLength, Split, StatusOf;
    var lines := Split(text, "\r\n");
    var status := StatusOf(lines[0]);
    if status.None? {
      return None;
    }
    var headers := lines[1..];
    var framing := ToEnd;
    for i := 0 to |headers|
      invariant framing == FramingOf(headers[..i])
    {
      var line := headers[i];
      assert headers[..i + 1] == headers[..i] + [line];
      assert headers[..i + 1][..i] == headers[..i];
      FramingStep(headers[..i], line);
      var length := DeclaredLength(line);
      if DeclaresChunked(line) {
        framing := Chunks;
      } else if framing != Chunks && length.Some? {
        framing := Length(length.value);
      }
    }
    assert headers[..|headers|] == headers;
    return Some(Head(status.value, framing));
  }

  lemma FramingStep(headers: seq<string>, line: string)
    ensures FramingOf(headers + [line]) ==
            if DeclaresChunked(line) then Chunks
            else if FramingOf(headers) != Chunks && DeclaredLength(line).Some? then Length(DeclaredLength(line).value)
            else FramingOf(headers)
  {
    hide DeclaresChunked, DeclaredLength;
    var more := headers + [line];
    assert more[..|more| - 1] == headers && more[|more| - 1] == line;
    NeverChunksFromLengths(headers);
    if i :| 0 <= i < |headers| && DeclaresChunked(headers[i]) {
      assert DeclaresChunked(more[i]);
    } else if DeclaresChunked(line) {
      assert DeclaresChunked(more[|headers|]);
    } else {
      forall j | 0 <= j < |more| ensures !DeclaresChunked(more[j]) {
        assert j < |headers| ==> more[j] == headers[j];
      }
    }
  }

  lemma NeverChunksFromLengths(headers: seq<string>)
    ensures LastLength(headers) != Chunks
  {
  }

  // ----- One-pass parse

  datatype Failure =
    | HeadersTooLong
    | ClosedBeforeResponse
    | ConnectionFailed
    | HeadNotText
    | UnreadableHead
    | Answered(status: nat)
    | DeclaredTooLong(length: nat)
    | ExceededCap
    | BodyEndedEarly
    | MalformedChunks

  /** What reading a body to its end yields. */
  function WholeBody(body: seq<byte>, ending: Ending): Result<seq<byte>, Failure> {
    if |body| > MAX_JWKS_BYTES then Err(ExceededCap)
    else if ending.Reset? && body == [] then Err(ConnectionFailed)
    else Ok(body)
  }

  function BodyOf(framing: Framing, body: seq<byte>, ending: Ending): Result<seq<byte>, Failure> {
    match framing
    case Length(length) =>
      if length > MAX_JWKS_BYTES then Err(DeclaredTooLong(length))
      else if |body| < length then Err(if ending.Closed? then BodyEndedEarly else ConnectionFailed)
      else Ok(body[..length])
    case ToEnd => WholeBody(body, ending)
    case Chunks =>
      match WholeBody(body, ending) {
        case Err(failure) => Err(failure)
        case Ok(whole) =>
          match Decoded(whole, MAX_JWKS_BYTES)
          case None => Err(MalformedChunks)
          case Some(out) => Ok(out)
      }
  }

  /** The head's verdict: its framing, or why the response is refused. */
  function HeadVerdict(head: seq<byte>): Result<Framing, Failure> {
    match FromUtf8(head)
    case None => Err(HeadNotText)
    case Some(text) =>
      match HeadOf(text)
      case None => Err(UnreadableHead)
      case Some(h) => if 200 <= h.status < 300 then Ok(h.framing) else Err(Answered(h.status))
  }

  /** The whole stream parsed at once. */
  function OnePass(stream: seq<byte>, ending: Ending): Result<seq<byte>, Failure> {
    match Find(stream, CRLF_CRLF)
    case None => Err(if ending.Closed? then ClosedBeforeResponse else ConnectionFailed)
    case Some(headEnd) =>
      match HeadVerdict(stream[..headEnd])
      case Err(failure) => Err(failure)
      case Ok(framing) => BodyOf(framing, stream[headEnd + 4..], ending)
  }

  /** Whether some read left more than the header cap buffered with no end of head in it. */
  ghost predicate HeadCutOff(cut: Cut) {
    exists k | 0 <= k <= |cut| :: CutOffAt(cut, k)
  }

  ghost predicate CutOffAt(cut: Cut, k: nat)
    requires k <= |cut|
  {
    var buffer := Flatten(cut[..k]);
    |buffer| > MAX_HEADER_BYTES && !Occurs(buffer, CRLF_CRLF)
  }

  // ----- The incremental reader

  lemma {:induction false} FlattenConcat(a: Cut, b: Cut)
    ensures Flatten(a + b) == Flatten(a) + Flatten(b)
  {
    if a == [] {
      assert a + b == b;
    } else {
      FlattenConcat(a[1..], b);
      assert (a + b)[0] == a[0] && (a + b)[1..] == a[1..] + b;
      Regroup(a[0], Flatten(a[1..]), Flatten(b));
    }
  }

  lemma FlattenSplit(cut: Cut, k: nat)
    requires k <= |cut|
    ensures Flatten(cut) == Flatten(cut[..k]) + Flatten(cut[k..])
  {
    hide Flatten;
    assert cut == cut[..k] + cut[k..];
    FlattenConcat(cut[..k], cut[k..]);
  }

  lemma FlattenNext(cut: Cut, k: nat)
    requires k < |cut|
    ensures Flatten(cut[..k + 1]) == Flatten(cut[..k]) + cut[k]
  {
    var next: Cut := [cut[k]];
    FlattenConcat(cut[..k], next);
    assert cut[..k + 1] == cut[..k] + next;
    assert next[1..] == [];
  }

  /** Once the end of head is in a prefix, no later prefix lacks it. */
  lemma LaterPrefixesHaveIt(cut: Cut, k: nat, later: nat)
    requires k <= later <= |cut| && Occurs(Flatten(cut[..k]), CRLF_CRLF)
    ensures Occurs(Flatten(cut[..later]), CRLF_CRLF)
  {
    FlattenSplit(cut[..later], k);
    assert cut[..later][..k] == cut[..k];
    FindInPrefix(Flatten(cut[..k]), Flatten(cut[..later][k..]), CRLF_CRLF);
  }

  /** Reads until the end of the head is buffered. */
  method ReadHead(peer: Peer) returns (r: Result<(seq<byte>, nat), Failure>)
    modifies peer
    ensures HeadCutOff(old(peer.pending)) ==> r == Err(HeadersTooLong)
    ensures !HeadCutOff(old(peer.pending)) ==>
              var stream := Flatten(old(peer.pending));
              match Find(stream, CRLF_CRLF) {
                case None => r == Err(if peer.ending.Closed? then ClosedBeforeResponse else ConnectionFailed)
                case Some(headEnd) =>
                  && r.Ok?
                  && r.value.1 == headEnd
                  && headEnd + 4 <= |r.value.0|
                  && r.value.0 + Flatten(peer.pending) == stream
              }
  {
    ghost var cut := peer.pending;
    ghost var k := 0;
    var buffer: seq<byte> := [];
    assert cut[0..] == cut;
    while true
      invariant 0 <= k <= |cut| && buffer == Flatten(cut[..k]) && peer.pending == cut[k..]
      invariant forall j | 0 <= j < k :: !CutOffAt(cut, j)
      decreases |cut| - k
    {
      FlattenSplit(cut, k);
      var found := Find(buffer, CRLF_CRLF);
      if found.Some? {
        FindInPrefix(buffer, Flatten(cut[k..]), CRLF_CRLF);
        forall j | k <= j <= |cut| ensures !CutOffAt(cut, j) {
          LaterPrefixesHaveIt(cut, k, j);
        }
        return Ok((buffer, found.value));
      }
      if |buffer| > MAX_HEADER_BYTES {
        assert CutOffAt(cut, k);
        return Err(HeadersTooLong);
      }
      assert !CutOffAt(cut, k);
      var got := peer.Read();
      match got
      case Data(bytes) =>
        FlattenNext(cut, k);
        buffer := buffer + bytes;
        k := k + 1;
      case Eof =>
        assert k == |cut| && cut[..k] == cut;
        return Err(ClosedBeforeResponse);
      case Failed =>
        assert k == |cut| && cut[..k] == cut;
        return Err(ConnectionFailed);
    }
  }

  /** Reads until `body` holds `length` bytes. */
  method ReadLength(peer: Peer, start: seq<byte>, length: nat) returns (r: Result<seq<byte>, Failure>)
    requires length <= MAX_JWKS_BYTES
    modifies peer
    ensures r == BodyOf(Length(length), start + Flatten(old(peer.pending)), peer.ending)
  {
    ghost var whole := start + Flatten(peer.pending);
    var body := start;
    while |body| < length
      invariant body + Flatten(peer.pending) == whole
      decreases |peer.pending|
    {
      ghost var rest := peer.pending;
      var got := peer.Read();
      match got
      case Data(bytes) => body := body + bytes;
      case Eof => return Err(BodyEndedEarly);
      case Failed => return Err(ConnectionFailed);
    }
    assert whole[..length] == body[..length];
    return Ok(body[..length]);
  }

  /** `read_to_end`: the rest of the stream, unless it passes the cap. */
  method ReadToEnd(peer: Peer, start: seq<byte>) returns (r: Result<seq<byte>, Failure>)
    modifies peer
    ensures r == WholeBody(start + Flatten(old(peer.pending)), peer.ending)
  {
    ghost var whole := start + Flatten(peer.pending);
    var body := start;
    while true
      invariant body + Flatten(peer.pending) == whole
      decreases |peer.pending|
    {
      if |body| > MAX_JWKS_BYTES {
        return Err(ExceededCap);
      }
      var got := peer.Read();
      match got
      case Data(bytes) => body := body + bytes;
      case Eof =>
        assert body == whole;
        return Ok(body);
      case Failed =>
        assert body == whole;
        return if body != [] then Ok(body) else Err(ConnectionFailed);
    }
  }

  /** What a connection that delivers `cut` and then `ending` comes to. */
  ghost function Outcome(cut: Cut, ending: Ending): Result<seq<byte>, Failure> {
    if HeadCutOff(cut) then Err(HeadersTooLong) else OnePass(Flatten(cut), ending)
  }

  /** The response reader, after the request has been sent. */
  method Exchange(peer: Peer) returns (r: Result<seq<byte>, Failure>)
    modifies peer
    ensures r == Outcome(old(peer.pending), peer.ending)
  {
    hide HeadOf, FromUtf8, Decoded;
    ghost var cut := peer.pending;
    ghost var stream := Flatten(cut);
    var headed := ReadHead(peer);
    if headed.Err? {
      return Err(headed.error);
    }
    var (buffer, headEnd) := headed.value;
    assert stream[..headEnd] == buffer[..headEnd];
    assert stream[headEnd + 4..] == buffer[headEnd + 4..] + Flatten(peer.pending);
    var text := FromUtf8(buffer[..headEnd]);
    if text.None? {
      return Err(HeadNotText);
    }
    var head := ParseHead(text.value);
    if head.None? {
      return Err(UnreadableHead);
    }
    if !(200 <= head.value.status < 300) {
      return Err(Answered(head.value.status));
    }
    var body := buffer[headEnd + 4..];
    match head.value.framing
    case Length(length) =>
      if length > MAX_JWKS_BYTES {
        return Err(DeclaredTooLong(length));
      }
      r := ReadLength(peer, body, length);
    case ToEnd =>
      r := ReadToEnd(peer, body);
    case Chunks =>
      r := ReadToEnd(peer, body);
      if r.Ok? {
        var out := Dechunk(r.value);
        r := if out.None? then Err(MalformedChunks) else Ok(out.value);
      }
  }

  // ----- Fragmentation

  ghost predicate CutsOf(cut: Cut, stream: seq<byte>) {
    Flatten(cut) == stream
  }

  /**
   Whether the end of the head lands in the window where the cap may or may not be
   noticed first: past the first byte over the cap, and within one more read of it.
   */
  predicate CapSensitive(stream: seq<byte>) {
    var headEnd := Find(stream, CRLF_CRLF);
    headEnd.Some? && MAX_HEADER_BYTES + 1 < headEnd.value + 4 <= MAX_HEADER_BYTES + READ_BYTES
  }

  lemma InPrefix(stream: seq<byte>, prefix: seq<byte>)
    requires prefix <= stream && Find(stream, CRLF_CRLF).Some?
    ensures Occurs(prefix, CRLF_CRLF) <==> Find(stream, CRLF_CRLF).value + 4 <= |prefix|
  {
    var h := Find(stream, CRLF_CRLF).value;
    if h + 4 <= |prefix| {
      assert prefix[h..h + 4] == stream[h..h + 4];
      assert MatchesAt(prefix, CRLF_CRLF, h);
    }
    if Occurs(prefix, CRLF_CRLF) {
      FindInPrefix(prefix, stream[|prefix|..], CRLF_CRLF);
      assert stream == prefix + stream[|prefix|..];
    }
  }

  lemma NotInPrefix(stream: seq<byte>, prefix: seq<byte>)
    requires prefix <= stream && Find(stream, CRLF_CRLF).None?
    ensures !Occurs(prefix, CRLF_CRLF)
  {
    assert stream == prefix + stream[|prefix|..];
    if Occurs(prefix, CRLF_CRLF) {
      FindInPrefix(prefix, stream[|prefix|..], CRLF_CRLF);
    }
  }

  /** The first prefix of a cut to pass a length stays within one read of it. */
  lemma {:induction false} FirstPast(cut: Cut, limit: nat, k: nat) returns (first: nat)
    requires k <= |cut| && |Flatten(cut[..k])| > limit
    ensures first <= k && limit < |Flatten(cut[..first])| <= limit + READ_BYTES
    decreases k
  {
    assert cut[..0] == [];
    FlattenNext(cut, k - 1);
    if |Flatten(cut[..k - 1])| > limit {
      first := FirstPast(cut, limit, k - 1);
    } else {
      first := k;
    }
  }

  /** Outside the window, the bytes alone decide whether the cap is hit. */
  lemma CutOffByBytes(cut: Cut)
    requires !CapSensitive(Flatten(cut))
    ensures var stream := Flatten(cut);
            HeadCutOff(cut) <==>
            match Find(stream, CRLF_CRLF) {
              case None => |stream| > MAX_HEADER_BYTES
              case Some(headEnd) => headEnd + 4 > MAX_HEADER_BYTES + 1
            }
  {
    var stream := Flatten(cut);
    var found := Find(stream, CRLF_CRLF);
    forall k | 0 <= k <= |cut| ensures Flatten(cut[..k]) <= stream {
      FlattenSplit(cut, k);
    }
    if found.Some? {
      forall k | 0 <= k <= |cut|
        ensures Occurs(Flatten(cut[..k]), CRLF_CRLF) <==> found.value + 4 <= |Flatten(cut[..k])|
      {
        InPrefix(stream, Flatten(cut[..k]));
      }
    } else {
      forall k | 0 <= k <= |cut| ensures !Occurs(Flatten(cut[..k]), CRLF_CRLF) {
        NotInPrefix(stream, Flatten(cut[..k]));
      }
    }
    assert cut[..|cut|] == cut;
    if |stream| > MAX_HEADER_BYTES {
      var first := FirstPast(cut, MAX_HEADER_BYTES, |cut|);
      assert found.None? || found.value + 4 > MAX_HEADER_BYTES + 1 ==> CutOffAt(cut, first);
    }
    if k :| 0 <= k <= |cut| && CutOffAt(cut, k) {
      assert |Flatten(cut[..k])| > MAX_HEADER_BYTES;
    }
  }

  /** The stream in full reads, the last one short. */
  function FullReads(stream: seq<byte>): (cut: Cut) {
    if stream == [] then []
    else if |stream| <= READ_BYTES then [stream]
    else [stream[..READ_BYTES]] + FullReads(stream[READ_BYTES..])
  }

  lemma {:induction false} FullReadsPrefix(stream: seq<byte>, k: nat)
    requires k <= |FullReads(stream)|
    ensures Flatten(FullReads(stream)) == stream
    ensures |Flatten(FullReads(stream)[..k])| == if k == |FullReads(stream)| then |stream| else READ_BYTES * k
    decreases |stream|
  {
    var cut := FullReads(stream);
    if stream == [] {
      assert cut[..k] == [];
    } else if |stream| <= READ_BYTES {
      assert cut == [stream] && cut[1..] == [];
      assert cut[..0] == [];
      assert k == 1 ==> cut[..k] == cut;
    } else {
      var rest := stream[READ_BYTES..];
      assert cut[1..] == FullReads(rest);
      if k == 0 {
        assert cut[..k] == [];
        FullReadsPrefix(rest, 0);
      } else {
        FullReadsPrefix(rest, k - 1);
        assert cut[..k][1..] == FullReads(rest)[..k - 1];
      }
    }
  }

  /** Inside the window, one cut of the same bytes is refused for its head and another is not. */
  lemma WindowDependsOnCut(stream: seq<byte>) returns (late: Cut, early: Cut)
    requires CapSensitive(stream)
    ensures CutsOf(late, stream) && CutsOf(early, stream)
    ensures HeadCutOff(late) && !HeadCutOff(early)
  {
    var n := MAX_HEADER_BYTES + 1;
    var first := FullReads(stream[..n]);
    var second := FullReads(stream[n..]);
    FullReadsPrefix(stream[..n], 0);
    FullReadsPrefix(stream[n..], 0);
    FlattenConcat(first, second);
    late := first + second;
    assert late[..|first|] == first;
    assert stream[..n] + stream[n..] == stream;
    InPrefix(stream, stream[..n]);
    assert CutOffAt(late, |first|);

    early := FullReads(stream);
    FullReadsPrefix(stream, 0);
    forall k | 0 <= k <= |early| ensures !CutOffAt(early, k) {
      FullReadsPrefix(stream, k);
      FlattenSplit(early, k);
      InPrefix(stream, Flatten(early[..k]));
      assert k >= 3 || k == |early| || |Flatten(early[..k])| <= MAX_HEADER_BYTES;
    }
  }

  /** Bytes that are no line break, then the end of the head: a head of 20000 bytes is in the window, for one. */
  lemma LongHeadIsSensitive(length: nat) returns (stream: seq<byte>, late: Cut, early: Cut)
    requires MAX_HEADER_BYTES + 1 < length + 4 <= MAX_HEADER_BYTES + READ_BYTES
    ensures stream == seq(length, _ => 0x41) + CRLF_CRLF && CapSensitive(stream)
    ensures CutsOf(late, stream) && CutsOf(early, stream) && HeadCutOff(late) && !HeadCutOff(early)
    ensures MAX_HEADER_BYTES + 1 < 20000 + 4 <= MAX_HEADER_BYTES + READ_BYTES
  {
    var head: seq<byte> := seq(length, _ => 0x41);
    stream := head + CRLF_CRLF;
    assert stream[length..length + 4] == CRLF_CRLF;
    assert MatchesAt(stream, CRLF_CRLF, length);
    var found := Find(stream, CRLF_CRLF).value;
    assert stream[found..found + 4][0] == stream[found];
    late, early := WindowDependsOnCut(stream);
  }

  lemma OnePassNeverBlamesTheCap(stream: seq<byte>, ending: Ending)
    ensures OnePass(stream, ending) != Err(HeadersTooLong)
  {
    hide HeadOf, FromUtf8, Decoded, Find;
  }

  /**
   The main result: the outcome is the same for every way of cutting the bytes into
   reads exactly when the end of the head is outside the window.
   */
  lemma OutcomeIgnoresFragmentation(stream: seq<byte>, ending: Ending)
    ensures (forall a: Cut, b: Cut | CutsOf(a, stream) && CutsOf(b, stream) :: Outcome(a, ending) == Outcome(b, ending))
            <==> !CapSensitive(stream)
  {
    hide OnePass;
    OnePassNeverBlamesTheCap(stream, ending);
    if CapSensitive(stream) {
      var late, early := WindowDependsOnCut(stream);
      assert Outcome(late, ending) != Outcome(early, ending);
    } else {
      forall a: Cut, b: Cut | CutsOf(a, stream) && CutsOf(b, stream)
        ensures Outcome(a, ending) == Outcome(b, ending)
      {
        CutOffByBytes(a);
        CutOffByBytes(b);
      }
    }
  }

  /** A head that ends within the cap is always read to its end, so every cut agrees with the one-pass parse. */
  lemma WithinCapIsOnePass(cut: Cut, ending: Ending)
    requires Find(Flatten(cut), CRLF_CRLF).Some?
    requires Find(Flatten(cut), CRLF_CRLF).value + 4 <= MAX_HEADER_BYTES
    ensures Outcome(cut, ending) == OnePass(Flatten(cut), ending)
  {
    CutOffByBytes(cut);
  }

  /** An accepted body is within the cap, whatever its framing and however it arrived. */
  lemma AcceptedBodyWithinCap(cut: Cut, ending: Ending)
    requires Outcome(cut, ending).Ok?
    ensures |Outcome(cut, ending).value| <= MAX_JWKS_BYTES
  {
    hide HeadOf, FromUtf8, Find;
  }

  /** A reply of announced length is accepted only as that many bytes, the first after the head. */
  lemma AnnouncedLengthIsKept(cut: Cut, ending: Ending, headEnd: nat, length: nat)
    requires Find(Flatten(cut), CRLF_CRLF) == Some(headEnd)
    requires HeadVerdict(Flatten(cut)[..headEnd]) == Ok(Length(length))
    requires Outcome(cut, ending).Ok?
    ensures |Outcome(cut, ending).value| == length
    ensures Outcome(cut, ending).value <= Flatten(cut)[headEnd + 4..]
  {
    hide HeadOf, FromUtf8, Find;
  }
}

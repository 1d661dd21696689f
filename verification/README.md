# Moso: proofs about its protocols, parsers and release tooling

A Dafny model of six parts of the Moso workspace, and proofs of what each of them is for. Every module is
named after what it models; `Text`, `Utf8` and `Wrappers` hold the standard-library string and byte
operations the rest is written with, and `TextFacts` what those mean. `dafny verify dfyconfig.toml` checks everything.

**Fetching and decoding keys** (`crates/moso-auth/src/jwks.rs`). `ResponseReader` is the hand-written
HTTP/1.1 response reader over a peer that delivers a byte stream in arbitrary blocks and then closes or
resets. The one-pass parse `OnePass` is its specification, and the main result says exactly for which
streams the outcome is independent of the blocks. `HttpMessage` says what comes out for responses as they
are written: status line, headers, blank line, body. `Chunked` is the chunked coding as the client decodes
it, `ChunkHeader` its header lines, and `ChunkedGrammar` the coding as RFC 9112 writes it down. `Base64Url`,
`Der`, `DerCanonical` and `VerifyingKey` are the key encodings: each decoder is shown to accept exactly the
byte strings that a relational description of the format (`Framed`, `Element`, `Spki`, `Pkcs1`, `Encodes`,
`Carries`) allows; `PublishedKeys` has the usual keys byte by byte and the JWKs member by member.

**Civil dates** (`xtask/src/util.rs`). `CivilDate` computes with 64-bit integers, so every intermediate
result is shown to fit; the calendar it is compared with (`Counted`) steps one day at a time.

**Two-step login** (`crates/moso-auth/src/mfa.rs`, `crates/moso-auth/src/backend.rs`). `ChallengeStore` has the
challenge operations and a machine in which any number of redemptions interleave between their read and their
delete while the store drops entries at will. `Login` is the backend's `authenticate`, and `LoginRuns` what
holds over every run of it. `SecondSteps` has the second steps of one account running at once, each in three
separate operations.

**Publish order** (`xtask/src/meta.rs`, `xtask/src/deps.rs`). `Workspace` has packages and graphs,
`PublishOrder` the round-based topological sort, `PublishGates` the worklist closure and the two gates.

**Source scanners and rewriters** (`xtask/src/expand.rs`, `xtask/src/crates.rs`, `xtask/src/release.rs`).
`RustLine` describes a line as tokens. `BraceDelta` and `StripLine` are the two line scanners against that
description, with `LineBytes` for the positions the second slices at. `ExpandScan` and `ExpandMeasure` are
the item scanner and its accounting, `ExpandLines` the item scanner together with the brace scanner it asks.
`ExpandText` and `ExpandCharges` say what those do to expansions as they are written. `Manifest` is the
version bump, `ManifestLines` what becomes of each line of a text, and `ManifestRoundTrip` bumping back.

**API keys** (`crates/moso-auth/src/apikey.rs`). `ApiKeyFormat` is the printed form, `ApiKeyStore` the store
with its tombstones and the authentication, `TouchTable` the bounded rate limiter.

Loops and objects of the source are methods and classes here, each proved equal to a specification function;
what the source promises is then proved of that function.

## Assumptions

- Digests are injective: a digest is a datatype constructor around what was hashed.
- Tokens drawn by the generator are fresh (a guard in `ChallengeStore`, `FreshTokens` in `LoginRuns`).
- An identity matches at most one account row; a call for which it does not is outside the model.
- A subject is the account's string key, written verbatim.
- A code is accepted only for a period above the resumed one, and the accepted period becomes the last
  (`crates/moso-auth/src/totp.rs:986-1002`). Periods fit in an `i64` where `PeriodsIncrease` says so.
- In `Login` and `LoginRuns` calls are serialised. The read of the period and its write are separate statements in
  the source, with no compare-and-set; what that allows is in `SecondSteps`.
- A write that fails may have taken effect or not, in every combination; a read that fails answers nothing.
- Package names are distinct, and so are API key ids.
- Clocks do not run backwards where `TouchTable` says so; the login and the challenge store need no such thing.

## Where the code and what is said of it differ

The model follows the code; each difference is a theorem.

- The header cap is checked once a read, so for a head that ends within one read past the cap the outcome
  depends on how the bytes were cut (`OutcomeIgnoresFragmentation`, and `LongHeadIsSensitive` for such heads).
- Of the chunked coding of section 7.1 of RFC 9112 the decoder checks only sizes. It skips two bytes after a chunk
  whatever they are (`ChunkTerminatorIsNotChecked`), takes a sign or a blank before a size (`PlusSignIsAccepted`,
  `BlankIsAccepted`), and does not look at what follows the last chunk's line (`MissingEndIsAccepted`). The other
  way round, it refuses an extension with a byte above ASCII that is not UTF-8 (`NonAsciiExtensionIsRefused`).
  `FramedConforms` locates, in every body that is accepted, which parts depart from the grammar, and
  `ConformingIsAccepted` says which conforming bodies are refused.
- Section 10.1 of X.690 wants the shortest length form and section 8.3.2 the shortest integer. The reader asks for
  neither (`LongLengthIsAccepted`, `PaddedExponentIsAccepted`), nor for a modulus that is not negative
  (`NegativeModulusIsAccepted`). `SpkiCanonical` and `Pkcs1Canonical` say which accepted keys are the canonical ones.
- An RSA key whose modulus or exponent is zero parses, is published, and is not read back (`ZeroModulusIsNotReadBack`;
  `ParsedKeyReadsBack` says exactly which keys are).
- An account row is meant to be written only by a call that signs somebody in. A period write that takes effect
  and is reported as failed is the one exception (`UnreportedWriteStays`; `FailedCallWritesExactly` says when).
- A code is meant to be accepted once. Of two second steps at once both may be accepted with one period
  (`OnePeriodTwice`); `AcceptedAgainExactly` says when, and `SerialStepsIncrease` when not.
- `publish_blockers` does not report a package's versioned dev-dependency on itself (`SelfEdgeIsMissed`);
  on an acyclic workspace that is all it misses of the versioned dev edges it is asked about (`GateMissesSelfEdges`).
- `rule_4` looks at a package's first entry for the facade only, so it can miss a cycle
  (`RuleFourMissesSecondListing`). `FoundExactly` and `RuleFourExactly` say which packages it finds.
- `brace_delta` reads on from the closing quote of the quote literal `'\''`. It is in step again exactly when the
  text after the literal does not read as a literal's end (`QuoteCharResyncs`), and can miscount when it is not
  (`QuoteLiteralMiscounts`). Every line has a reading of the scanner's own whose braces are the answer
  (`EveryLineScans`), so the answer is right exactly when that reading and Rust's have the same net braces
  (`RightExactly`).
- The stripper takes a `'"'` or `'\"'` literal for the start of a string (`QuoteCharOpensString`,
  `EscapedQuoteOpensString`). Of the lines that read as tokens it is right exactly on those without one (`StripExact`).
- Clearing the limiter's table is said to cost one extra write per key at worst. Each clear within an interval can
  cost one (`GrantsWithinInterval`, `BoundIsAttained`), and `GrantsCounted` says exactly which calls are granted.
- An assertion block is said to belong to whatever the item before it belongs to. It is labelled before the
  middleware's items are, so that holds exactly in the cases of `AssertionFollows`; `AssertionMissed` is one other.
- A bump is documented to move the pins of `[workspace.dependencies]`. It moves a pin in any table
  (`LineChanges`; `PinElsewhereMoves` for one in `[patch]`).
- A bump is documented to leave other bytes alone. It rewrites every CRLF as a newline, and is otherwise exact
  (`RejoinExact`).

## Model

| member | source | states |
|---|---|---|
| ResponseReader.Peer.Read | crates/moso-auth/src/jwks.rs:812-819 | one read yields the next block of at most 8192 bytes, or the stream's ending: a clean close or a failure |
| ResponseReader.ParseHead | crates/moso-auth/src/jwks.rs:939-970 | the one-pass header loop finds the status and the framing: chunked if any header says so wherever it stands, else the last readable length, else read to the end |
| ResponseReader.FramingStep | crates/moso-auth/src/jwks.rs:949-968 | one more header line changes the framing as the loop does: a length never displaces chunked, an unreadable length changes nothing |
| ResponseReader.ChunkedIsNotALength | crates/moso-auth/src/jwks.rs:955-967 | no line is both a chunked declaration and a length, so the order of the two tests does not matter |
| ResponseReader.ReadHead | crates/moso-auth/src/jwks.rs:801-820 | the buffering loop fails on the cap exactly when some prefix of reads passes 16 KiB without the blank line; otherwise it stops at the first blank line of the whole stream and has lost no byte |
| ResponseReader.ReadLength | crates/moso-auth/src/jwks.rs:841-853 | reading a body of announced length yields that prefix of the remaining stream, or the right failure when the stream is shorter |
| ResponseReader.ReadToEnd | crates/moso-auth/src/jwks.rs:866-909 | reading to the end yields the whole remaining stream when it is within 256 KiB, and refuses it otherwise; a reset counts as an end once a byte has arrived |
| ResponseReader.Exchange | crates/moso-auth/src/jwks.rs:778-863 | the incremental reader answers the header-cap error or the one-pass parse of all the bytes, for every fragmentation and both endings |
| ResponseReader.CutOffByBytes | crates/moso-auth/src/jwks.rs:803-820 | outside the window the bytes alone decide whether the header cap is hit, and at which length |
| ResponseReader.WindowDependsOnCut | crates/moso-auth/src/jwks.rs:803-820 | inside the window one cut of the same bytes is refused and another is not |
| ResponseReader.LongHeadIsSensitive | crates/moso-auth/src/jwks.rs:803-820 | heads of 16382 to 24572 bytes, 20000 for one, are in the window, with a cut that is refused and one that is not |
| ResponseReader.OutcomeIgnoresFragmentation | crates/moso-auth/src/jwks.rs:778-863 | all cuts of a stream into reads give the same outcome if and only if its head does not end in the window 16385 < end <= 24576 |
| ResponseReader.WithinCapIsOnePass | crates/moso-auth/src/jwks.rs:778-863 | when the head ends within 16 KiB every cut gives the one-pass parse |
| ResponseReader.AcceptedBodyWithinCap | crates/moso-auth/src/jwks.rs:629-634 | no accepted body exceeds 256 KiB, whatever its framing and fragmentation |
| ResponseReader.AnnouncedLengthIsKept | crates/moso-auth/src/jwks.rs:835-853 | a body of announced length is exactly that many bytes, the first after the head |
| HttpMessage.StatusExactly | crates/moso-auth/src/jwks.rs:941-947 | a first line has a status if and only if it is `HTTP/1.`, more, a space and a number up to 65535 in decimal, perhaps with more after another space |
| HttpMessage.ChunkedLineExactly | crates/moso-auth/src/jwks.rs:950-960 | a line declares chunked if and only if it is that header name and a value with the word in it, both in any case |
| HttpMessage.LengthLineExactly | crates/moso-auth/src/jwks.rs:950-967 | a line declares a length if and only if it is that header name in any case and a decimal number between blanks |
| HttpMessage.FramingIs | crates/moso-auth/src/jwks.rs:949-969 | the framing of header lines: chunked if some line declares it, else the last declared length, else the rest of the stream |
| HttpMessage.FramingUnique | crates/moso-auth/src/jwks.rs:949-969 | header lines have one framing |
| HttpMessage.LinesSplit | crates/moso-auth/src/jwks.rs:940-941 | lines joined by CRLF are split into those lines |
| HttpMessage.BlankLineFound | crates/moso-auth/src/jwks.rs:912-914 | the head found in a response is all of its lines, and what follows is all of its body |
| HttpMessage.ResponseIsRead | crates/moso-auth/src/jwks.rs:778-909 | what the reader answers to any such response, however its bytes are cut and its connection ends: the body of each framing, its errors, or the status that is not 2xx |
| HttpMessage.HeaderCapIs | crates/moso-auth/src/jwks.rs:713-820 | the header cap and its window in numbers, and the errors of a stream without a blank line |
| HttpMessage.HeadIsRefused | crates/moso-auth/src/jwks.rs:822-825 | a head that is not UTF-8 is refused as that, and one without a status line as unreadable |
| HttpMessage.LengthRoundTrip | crates/moso-auth/src/jwks.rs:778-853 | a response printed with a status of 200 to 299 in decimal and one `content-length` of its body gives back the body, whatever is sent after it |
| HttpMessage.ChunkedRoundTrip | crates/moso-auth/src/jwks.rs:778-858 | one printed with `transfer-encoding: chunked` gives back what was chunked, for every split into pieces, with extensions and trailer |
| HttpMessage.BareRoundTrip | crates/moso-auth/src/jwks.rs:778-862 | one printed with neither header gives back the rest of the stream |
| HttpMessage.OtherStatusIsAnswered | crates/moso-auth/src/jwks.rs:826-828 | any other decimal status up to 65535 is answered as that number |
| Chunked.Dechunk | crates/moso-auth/src/jwks.rs:974-995 | the decoding loop equals the recursive decoder with a cap on the total |
| ChunkHeader.ChunkSizeExactly | crates/moso-auth/src/jwks.rs:978-984 | a chunk's line announces a size if and only if it is UTF-8 of a 64-bit hexadecimal number, perhaps with a plus, between blanks, then nothing or a semicolon and more |
| Chunked.FramedDecodes | crates/moso-auth/src/jwks.rs:974-995 | every sequence of chunks followed by a zero chunk decodes to its payload when that fits, and is refused when it does not |
| Chunked.DecodedIsFramed | crates/moso-auth/src/jwks.rs:974-995 | whatever is accepted is such a sequence, so the output is in-order disjoint slices of the input |
| Chunked.DechunkExact | crates/moso-auth/src/jwks.rs:974-995 | a body is accepted with an output if and only if it is framed chunks of that payload within the cap |
| Chunked.TerminatorsExactly | crates/moso-auth/src/jwks.rs:990-993 | a body is chunks that each end in CRLF if and only if it is accepted and the bytes skipped after each chunk are CRLF |
| ChunkedGrammar.GrammarExact | crates/moso-auth/src/jwks.rs:973-995 | checking from the front decides whether a body is chunks, a last chunk and a trailer section as RFC 9112 has them, extensions and field lines included |
| ChunkedGrammar.HeaderIsRead | crates/moso-auth/src/jwks.rs:978-983 | a header line of the grammar is read as its size if it is UTF-8 and the size fits, and refused otherwise |
| ChunkedGrammar.ConformingIsAccepted | crates/moso-auth/src/jwks.rs:974-995 | a body of the grammar is accepted, as its payload, if and only if that is within the cap and its header lines are UTF-8 |
| ChunkedGrammar.ConformingExactly | crates/moso-auth/src/jwks.rs:974-995 | a body is accepted with an output and follows the grammar if and only if it is conforming chunks of that payload, within the cap, with header lines in UTF-8 |
| ChunkedGrammar.FramedConforms | crates/moso-auth/src/jwks.rs:974-995 | a body of any framed chunks follows the grammar if and only if every chunk's header line and terminator, the last chunk's line and the trailer do |
| ChunkedGrammar.OneChunkExact | crates/moso-auth/src/jwks.rs:974-995 | in particular one chunk whose size is read is accepted whatever its header line, terminator and trailer, and conforms if and only if all three do |
| ChunkedGrammar.PlusSignIsAccepted | crates/moso-auth/src/jwks.rs:982-983 | a body with the chunk size `+1` is accepted and does not conform |
| ChunkedGrammar.BlankIsAccepted | crates/moso-auth/src/jwks.rs:982-983 | so is one with a blank before the size |
| ChunkedGrammar.MissingEndIsAccepted | crates/moso-auth/src/jwks.rs:985-987 | so is one that ends after the last chunk line |
| ChunkedGrammar.NonAsciiExtensionIsRefused | crates/moso-auth/src/jwks.rs:979-979 | a conforming body with a non-UTF-8 extension is refused |
| Chunked.ChunkSizeOfHex | crates/moso-auth/src/jwks.rs:978-983 | every hexadecimal size, with or without an extension, is read as that size |
| Chunked.DechunkInvertsEncode | crates/moso-auth/src/jwks.rs:974-995 | any split of a body up to the cap into non-empty chunks, with any extensions and any trailer, decodes to the body |
| Chunked.ChunkTerminatorIsNotChecked | crates/moso-auth/src/jwks.rs:990-993 | an input without the required CRLF after a chunk that is accepted |
| Base64Url.UnpackPack | crates/moso-auth/src/jwks.rs:49-52 | unpacking inverts packing for every byte string |
| Base64Url.AlphabetIs | crates/moso-auth/src/jwks.rs:49-52 | the 64 characters in the order of table 2 of RFC 4648 |
| Base64Url.GroupIsInOrder | crates/moso-auth/src/jwks.rs:49-52 | three bytes become four characters whose six-bit values in order spell the same 24-bit number |
| Base64Url.PackUnpack | crates/moso-auth/src/jwks.rs:54-63 | packing inverts unpacking for every accepted text, so stray trailing bits are refused |
| Base64Url.OneSpelling | crates/moso-auth/src/jwks.rs:49-63 | a text decodes to a byte string if and only if it is its one unpadded encoding |
| Der.Reader.Length | crates/moso-auth/src/jwks.rs:181-200 | the cursor reads a short or a one- to four-byte length and moves past it |
| Der.Reader.Tlv | crates/moso-auth/src/jwks.rs:164-178 | the cursor reads one element of the wanted tag, answers its content and stands after it |
| Der.LengthReads | crates/moso-auth/src/jwks.rs:181-200 | every spelling of a length of up to four bytes is read as that length, wherever it stands |
| Der.ElementReads | crates/moso-auth/src/jwks.rs:164-178 | every element is read as its content, whatever is before and after it |
| Der.ReadsElement | crates/moso-auth/src/jwks.rs:164-178 | whatever is read is an element |
| Der.SpkiKeyBitsReader | crates/moso-auth/src/jwks.rs:210-228 | the two nested cursors compute the key bits of the specification |
| Der.SpkiExact | crates/moso-auth/src/jwks.rs:210-228 | key bits come out if and only if the bytes are a SubjectPublicKeyInfo of them, with nothing left over |
| Der.RsaPublicKeyReader | crates/moso-auth/src/jwks.rs:232-245 | the two nested cursors compute the modulus and exponent of the specification |
| Der.Pkcs1Exact | crates/moso-auth/src/jwks.rs:232-245 | two integers come out if and only if the bytes are an RSAPublicKey of them |
| DerCanonical.ReadsCanonical | crates/moso-auth/src/jwks.rs:164-200 | what is read with a shortest length is the canonical element, and nothing else is |
| DerCanonical.SpkiCanonical | crates/moso-auth/src/jwks.rs:210-228 | of the accepted SPKIs those whose visited lengths are shortest are exactly the canonical encodings of their key |
| DerCanonical.Pkcs1Canonical | crates/moso-auth/src/jwks.rs:232-254 | of the accepted RSA keys those whose visited lengths and integers are shortest are exactly the canonical encodings |
| DerCanonical.ShortestIntegerExact | crates/moso-auth/src/jwks.rs:247-254 | an integer is non-negative and shortest if and only if putting back the sign padding that was stripped restores it |
| DerCanonical.LongLengthIsAccepted | crates/moso-auth/src/jwks.rs:181-200 | writing the outer length of a small SPKI in one byte too many gives another accepted SPKI of the same key |
| DerCanonical.IntegersExact | crates/moso-auth/src/jwks.rs:232-254 | whatever the two integers' contents, they are read as their unsigned values; the key is in shortest form if and only if both are |
| DerCanonical.PaddedExponentIsAccepted | crates/moso-auth/src/jwks.rs:232-254 | an exponent with a zero byte too many is accepted |
| DerCanonical.NegativeModulusIsAccepted | crates/moso-auth/src/jwks.rs:232-254 | a modulus that DER reads as negative is accepted as its unsigned value |
| Der.UnsignedKeepsValue | crates/moso-auth/src/jwks.rs:247-254 | stripping sign padding keeps the integer's value |
| Der.MinimalUnique | crates/moso-auth/src/jwks.rs:247-254 | two stripped spellings of one value are equal, so a key has one form |
| PublishedKeys.LengthExactly | crates/moso-auth/src/jwks.rs:181-200 | a length is spelled by exactly five forms, written out byte by byte |
| PublishedKeys.LengthFormIsShortest | crates/moso-auth/src/jwks.rs:181-200 | the canonical form of a length is shorter than any other |
| PublishedKeys.BareKeysParse | crates/moso-auth/src/jwks.rs:420-475 | 32 bytes are an Ed25519 key; 64 bytes, or 65 that start with 4, a P-256 point; anything but nothing a secret |
| PublishedKeys.ShapesAre | crates/moso-auth/src/jwks.rs:420-475 | the kind, length and first byte of every key that parses |
| PublishedKeys.Ed25519SpkiParses | crates/moso-auth/src/jwks.rs:210-434 | the 44 bytes of section 4 of RFC 8410 parse to their last 32 |
| PublishedKeys.P256SpkiParses | crates/moso-auth/src/jwks.rs:210-451 | the 91 bytes of a P-256 SubjectPublicKeyInfo parse to their last 65 |
| PublishedKeys.RsaKeyParses | crates/moso-auth/src/jwks.rs:210-467 | a 2048-bit RSA key with exponent 65537 parses from its 270 bytes of PKCS#1 and from its SubjectPublicKeyInfo |
| VerifyingKey.NormaliseExact | crates/moso-auth/src/jwks.rs:612-623 | a point comes out if and only if the bytes are it, or its bare coordinates |
| VerifyingKey.RsaExact | crates/moso-auth/src/jwks.rs:232-254 | a modulus and exponent come out if and only if they are the minimal forms of the encoded values |
| VerifyingKey.SpkiSize | crates/moso-auth/src/jwks.rs:420-467 | an SPKI is at least seven bytes longer than its key, so the length tests cannot mistake it for a bare one |
| VerifyingKey.SpkiIsNotPkcs1 | crates/moso-auth/src/jwks.rs:452-467 | no SPKI is a PKCS#1 key |
| VerifyingKey.ParseExact | crates/moso-auth/src/jwks.rs:420-475 | for each algorithm bytes parse to a key if and only if they are one of its accepted encodings |
| VerifyingKey.ParsedFits | crates/moso-auth/src/jwks.rs:420-475 | a parsed key has its algorithm's kind and shape |
| VerifyingKey.EncodedPkcs1 | crates/moso-auth/src/jwks.rs:232-245 | the standard RSAPublicKey encoder produces an encoding of its key |
| VerifyingKey.EncodedSpki | crates/moso-auth/src/jwks.rs:210-228 | the standard SubjectPublicKeyInfo encoder produces an encoding of its key |
| VerifyingKey.Ed25519EncodingsAgree | crates/moso-auth/src/jwks.rs:420-434 | raw bytes and SPKI parse to the same key, whatever the algorithm identifier |
| VerifyingKey.P256EncodingsAgree | crates/moso-auth/src/jwks.rs:435-451 | point, bare coordinates, and SPKI of either parse to the same key |
| VerifyingKey.RsaEncodingsAgree | crates/moso-auth/src/jwks.rs:452-467 | PKCS#1 and SPKI of it parse to the same key |
| VerifyingKey.FromJwkExact | crates/moso-auth/src/jwks.rs:479-533 | a JWK reads as a key if and only if it carries that key's members in their one spelling |
| PublishedKeys.PublishedExactly | crates/moso-auth/src/jwks.rs:538-567 | a key is published as a JWK if and only if that has its key id, its algorithm's name, the use `sig`, the right kind and curve, and exactly the members that hold it |
| VerifyingKey.PublishedReadsBack | crates/moso-auth/src/jwks.rs:479-567 | a secret is never published, and a published key reads back if and only if its RSA integers are not empty |
| VerifyingKey.ParsedKeyReadsBack | crates/moso-auth/src/jwks.rs:420-567 | a configured key survives publication if and only if it is asymmetric with non-zero modulus and exponent |
| VerifyingKey.ZeroModulusIsNotReadBack | crates/moso-auth/src/jwks.rs:420-567 | a PKCS#1 key with modulus zero parses, is published, and what is published is refused |
| CivilDate.CivilDate | xtask/src/util.rs:676-690 | the formula in 64-bit integers overflows nowhere and equals the one in unbounded integers |
| CivilDate.YearOfEraExact | xtask/src/util.rs:682-685 | the year formula finds the year of an era that contains the day |
| CivilDate.YearOfEraUnique | xtask/src/util.rs:682-685 | and no other year contains it |
| CivilDate.MonthOfYearExact | xtask/src/util.rs:686-688 | the month formula finds the month that contains the day of the year |
| CivilDate.FromDaysNext | xtask/src/util.rs:679-689 | every day number has a valid date, and the next one has the next date |
| CivilDate.FromDaysIsCounted | xtask/src/util.rs:679-689 | for every day number the formula is the calendar counted day by day from 1970-01-01 in either direction |
| CivilDate.CivilDateIsCounted | xtask/src/util.rs:676-690 | for every i64 second count the result is valid and is that many whole days from the epoch |
| CivilDate.FromDaysIncreases | xtask/src/util.rs:679-689 | a later day has a later date |
| CivilDate.CivilDateOrder | xtask/src/util.rs:676-690 | one result is before another if and only if its day is |
| CivilDate.ToDaysInverts | xtask/src/util.rs:679-689 | every valid date is reached from its day number |
| CivilDate.CivilDateInverse | xtask/src/util.rs:676-690 | days to civil and civil to days are inverse both ways |
| ChallengeStore.Challenges.IssueAt | crates/moso-auth/src/mfa.rs:707-723 | a challenge is written under its digest with an expiry ttl after now and handed out; on an error it is not handed out, and is written only if the failed write took effect |
| ChallengeStore.Challenges.Delete | crates/moso-auth/src/mfa.rs:797-801 | the delete answers whether the key was there and leaves it absent |
| ChallengeStore.Challenges.RedeemAt | crates/moso-auth/src/mfa.rs:785-807 | a redemption nothing interrupts takes the entry and answers its subject only before its expiry; a failed delete may or may not have taken it |
| ChallengeStore.StepKeepsInvariant | crates/moso-auth/src/mfa.rs:707-807 | no step of anyone breaks the invariant: entries and reads are as minted, claimed entries are gone and were claimed once, successes are sound |
| ChallengeStore.RunKeepsInvariant | crates/moso-auth/src/mfa.rs:707-807 | the invariant holds after every interleaving |
| ChallengeStore.RedeemedAtMostOnce | crates/moso-auth/src/mfa.rs:785-807 | in every interleaving each challenge is redeemed by at most one attempt, for the subject it was minted for, strictly before its expiry |
| ChallengeStore.ClaimConsumes | crates/moso-auth/src/mfa.rs:797-806 | an attempt that claims a challenge, successful or not, uses it up in every continuation |
| ChallengeStore.HistoryStays | crates/moso-auth/src/mfa.rs:707-807 | finished answers and minted challenges never change |
| ChallengeStore.UninterruptedIsRedeemed | crates/moso-auth/src/mfa.rs:785-807 | the machine's read then claim, uninterrupted, is the sequential redemption |
| Login.DatabaseBackend.WriteMatching | crates/moso-auth/src/backend.rs:793-798 | the filtered update changes the matching row and no other |
| Login.DatabaseBackend.SecondStepOf | crates/moso-auth/src/backend.rs:757-800 | the challenge is claimed before the code is checked, whatever comes of it; the period is written before success is answered; a failed delete or write may or may not have taken effect |
| Login.DatabaseBackend.UpgradeHash | crates/moso-auth/src/backend.rs:807-836 | an aged hash is replaced by one of the presented password, or nothing changes |
| Login.DatabaseBackend.Authenticate | crates/moso-auth/src/backend.rs:872-988 | the whole call, with every failure point and writes that fail with or without effect, equals its specification as a step on rows and challenges |
| LoginRuns.CallMints | crates/moso-auth/src/backend.rs:950-960 | a challenge is answered only after the password of an active enrolled account, and is then exactly what the store gained |
| LoginRuns.CallKeepsOrMints | crates/moso-auth/src/backend.rs:872-988 | every challenge a call leaves was there before, or the call verified the password of the account it minted it for |
| LoginRuns.CallSignsIn | crates/moso-auth/src/backend.rs:757-800 | signing an enrolled account in claims a live challenge of its own and stores a newer period |
| LoginRuns.CallWritesOnlyOnSignIn | crates/moso-auth/src/backend.rs:872-988 | rows are written only by a call that signs in or whose period write is made and reported as failed: only the row of the account whose password it gave, its period, and its hash on signing in |
| LoginRuns.FailedCallWritesExactly | crates/moso-auth/src/backend.rs:757-800 | a call that signs nobody in writes a row if and only if it brings all that a second step asks for, guard by guard, its period write took effect unreported, and the period differs |
| LoginRuns.UnreportedWriteStays | crates/moso-auth/src/backend.rs:793-799 | a store and a call that fails and leaves the account with the new period |
| LoginRuns.SignsInExactly | crates/moso-auth/src/backend.rs:757-988 | an enrolled account is signed in if and only if the call brings all that and its period write is made and reported |
| LoginRuns.PasswordSignsInExactly | crates/moso-auth/src/backend.rs:872-988 | an account without a second factor is signed in if and only if the call gives its password and nothing fails before |
| LoginRuns.AsksExactly | crates/moso-auth/src/backend.rs:950-960 | a challenge is answered if and only if an enrolled account's password came without a code and the challenge can be expressed and written |
| LoginRuns.PresentedIsGone | crates/moso-auth/src/backend.rs:757-800 | a challenge presented with a code after the password is gone afterwards, whatever its subject, its expiry or the code, unless the store did not take the delete |
| LoginRuns.SecondPresentationFails | crates/moso-auth/src/backend.rs:757-800 | in every run, of two requests presenting one challenge to such a store the second does not sign anybody in through a second factor, however the first was answered |
| LoginRuns.NothingEarned | crates/moso-auth/src/backend.rs:906-945 | an unknown identity, a wrong password and a suspended account are one refusal that changes nothing |
| LoginRuns.VerifiedExactly | crates/moso-auth/src/backend.rs:880-945 | a password counts if and only if it is the one row's, matched under either spelling, and the account is active |
| LoginRuns.WrongStepIsRefused | crates/moso-auth/src/backend.rs:757-800 | a second step that does not bring all that is asked for is refused and writes no row |
| LoginRuns.OutageFails | crates/moso-auth/src/backend.rs:757-960 | a challenge store that does not answer fails the call; it never skips the second factor |
| LoginRuns.EarlyFaultFails | crates/moso-auth/src/backend.rs:880-940 | a failed read, a failed verification and an unreadable hash fail the call and change nothing |
| LoginRuns.UpgradesExactly | crates/moso-auth/src/backend.rs:807-836 | signing in leaves a hash of the presented password if and only if the stored one has aged, upgrades are on and the write was not lost |
| LoginRuns.EnrolledExactly | crates/moso-auth/src/backend.rs:946-962 | an account is enrolled if and only if its secret has a character that is no white space |
| LoginRuns.AcceptsExactly | crates/moso-auth/src/backend.rs:782-788 | a code's period is accepted if and only if it is above the stored one, a negative one not counting |
| LoginRuns.UndisturbedLoginSucceeds | crates/moso-auth/src/backend.rs:757-988 | in a run, the challenge answered to a password, left alone and presented in time with the password and a newer code, signs the account in |
| LoginRuns.CallRaisesPeriod | crates/moso-auth/src/backend.rs:782-799 | a call leaves an account's period alone or raises it to the accepted one |
| LoginRuns.EntriesAreMinted | crates/moso-auth/src/backend.rs:950-960 | in every run, whatever the store holds was minted by an earlier call that verified its subject's password |
| LoginRuns.GoneStaysGone | crates/moso-auth/src/mfa.rs:785-807 | with fresh tokens a challenge that is gone never comes back |
| LoginRuns.LoginUsesEarnedChallenge | crates/moso-auth/src/backend.rs:757-988 | in every run each sign-in of an enrolled account uses a challenge that an earlier password-verified call minted for it, within its lifetime |
| LoginRuns.ChallengeUsedOnce | crates/moso-auth/src/backend.rs:757-988 | in every run no challenge signs anybody in twice |
| LoginRuns.PeriodNeverFalls | crates/moso-auth/src/backend.rs:782-799 | a stored period is never lowered by requests, answered or failed |
| LoginRuns.PeriodsIncrease | crates/moso-auth/src/backend.rs:782-799 | of two second-factor logins of an account the later stores a strictly newer period, whatever happens between that does not lower it from outside |
| LoginRuns.RowsChangeOnlyOnSignIn | crates/moso-auth/src/backend.rs:872-988 | in every run a row changes only by an edit from elsewhere, by the call that signs its account in, or by one whose period write took effect unreported, which changes the period alone |
| SecondSteps.RunKeepsInvariant | crates/moso-auth/src/backend.rs:757-911 | in every interleaving of second steps of one account, what each remembers is what it read, what it wrote is above that, and no challenge is claimed twice |
| SecondSteps.AcceptedIsAboveSeen | crates/moso-auth/src/backend.rs:782-799 | each success is above the period stored when it read, and no two use one challenge |
| SecondSteps.AcceptedAgainExactly | crates/moso-auth/src/backend.rs:782-799 | a code of an accepted period is accepted again if and only if the period read is below it, so only if it was read before that write or after a lower one |
| SecondSteps.LoweredMeansOverlap | crates/moso-auth/src/backend.rs:782-799 | a write that is not above the one before was made by a call that had not read that one |
| SecondSteps.SerialStepsIncrease | crates/moso-auth/src/backend.rs:782-799 | where no success writes over a period it had not read, later ones are strictly higher |
| SecondSteps.OnePeriodTwice | crates/moso-auth/src/backend.rs:782-799 | an interleaving in which one period is accepted twice, each time with its own challenge |
| Workspace.NamedIsListed | xtask/src/meta.rs:316-318 | with distinct names, looking a listed package up by name finds it |
| Workspace.NameLessExactly | xtask/src/meta.rs:488-509 | one name is before another if and only if they first differ at a smaller character, or the one ends there |
| Workspace.MemberCycles | xtask/src/meta.rs:477-485 | leaving out edges that exit the workspace loses no cycle |
| PublishOrder.MemberEdges | xtask/src/meta.rs:474-485 | the waiting edges are the build edges between members |
| PublishOrder.PlaceReady | xtask/src/meta.rs:501-508 | one round's ready packages leave the graph as nodes and as edges and are placed in order |
| PublishOrder.PublishOrder | xtask/src/meta.rs:473-512 | terminates; succeeds if and only if the build graph is acyclic; the order is a permutation of the packages and canonical; the error lists exactly the packages with endless build chains, one of them on a real cycle |
| PublishOrder.RoundStep | xtask/src/meta.rs:488-509 | a round places exactly the packages whose longest chain below has the round's length |
| PublishOrder.StuckMeansCycle | xtask/src/meta.rs:494-500 | when every waiting package waits for a waiting one, one of them reaches itself |
| PublishOrder.HeightsExcludeCycles | xtask/src/meta.rs:473-512 | when every package has a longest chain there is no cycle |
| PublishOrder.CanonicalUnique | xtask/src/meta.rs:473-512 | a graph has one order sorted by longest chain below, then name |
| PublishOrder.DependenciesFirst | xtask/src/meta.rs:450-456 | in that order every dependency is strictly earlier |
| PublishGates.DependencyIsEarlier | xtask/src/meta.rs:56-63 | in an order that came out every dependency on a member, in whatever table but the dev one, is strictly earlier |
| PublishOrder.ListingOrderIsIrrelevant | xtask/src/meta.rs:473-512 | two listings of the same packages and dependencies, in any orders, are published in the same order |
| PublishGates.ReachableFrom | xtask/src/meta.rs:429-448 | the worklist terminates on cyclic graphs and collects exactly what lies below the start |
| PublishGates.BelowIsReaches | xtask/src/meta.rs:429-448 | for a member that is the set of end points of its non-empty build paths |
| PublishGates.PublishBlockers | xtask/src/meta.rs:380-407 | the messages, sorted and each once, of precisely the versioned dev edges of publishable packages to members that build-reach the package |
| PublishGates.BlockersOf | xtask/src/meta.rs:381-403 | those edges, before their messages |
| PublishGates.VersionedExactly | xtask/src/meta.rs:80-82 | an edge names a version if and only if its requirement is not blank and not a lone star among blanks |
| PublishGates.BlocksExactly | xtask/src/meta.rs:380-407 | the blockers are exactly the dev edges of publishable packages whose requirement is neither, to members that reach back |
| PublishGates.PathOnlyNeverBlocks | xtask/src/meta.rs:380-407 | a path-only dev edge is never a blocker |
| PublishGates.TwoPackagesBlock | xtask/src/meta.rs:353-407 | a facade and a crate that has it as a dev-dependency: no blocker path-only, exactly one for every other requirement |
| PublishGates.DevEdgeClosesCycle | xtask/src/meta.rs:353-358 | in an acyclic graph one more edge closes a cycle if and only if its target reaches back or it is a self edge |
| PublishGates.GateMissesSelfEdges | xtask/src/meta.rs:380-407 | on an acyclic workspace the gate answers whether a versioned dev edge would close a cycle if and only if it is not a self edge |
| PublishGates.ReportedExactly | xtask/src/meta.rs:387-393 | such an edge is reported if and only if its target reaches the package over build edges |
| PublishGates.SelfEdgeIsMissed | xtask/src/meta.rs:380-407 | a workspace whose one versioned dev edge closes a cycle and is not reported |
| PublishGates.RuleFour | xtask/src/deps.rs:523-597 | the findings are exactly the Moso crates whose first facade entry is a build edge and which the facade reaches, in listing order; without a facade the rule is skipped |
| PublishGates.FindingSpelledOut | xtask/src/deps.rs:533-543 | a finding is a `moso-` crate whose first entry for `moso` is no dev-dependency and which `moso` reaches |
| PublishGates.FindingBlocksPublishing | xtask/src/deps.rs:523-597 | every finding is a build cycle through the facade, so no publish order exists |
| PublishGates.FoundExactly | xtask/src/deps.rs:533-543 | a package is found if and only if it closes a build cycle through the facade and passes the two filters |
| PublishGates.OnCycleIsClosed | xtask/src/deps.rs:523-597 | the facade is on a build cycle if and only if it builds on itself or some package closes one |
| PublishGates.RuleFourExactly | xtask/src/deps.rs:523-597 | something is found if and only if some package that closes a cycle passes the filters, and all of them are if and only if all pass |
| PublishGates.RuleFourComplete | xtask/src/deps.rs:523-597 | in particular, when no package lists the facade twice and only Moso crates build on it, there is a finding if and only if the facade is on a cycle |
| PublishGates.RuleFourMissesSecondListing | xtask/src/meta.rs:186-188 | a workspace with a facade cycle and no finding |
| BraceDelta.SkipString | xtask/src/expand.rs:1103-1113 | the string skip goes to the first unescaped quote, or past the line |
| BraceDelta.SkipRawString | xtask/src/expand.rs:1115-1140 | the raw skip goes past the first quote with enough hashes, or is refused when no raw string opens |
| BraceDelta.SkipCharOrLifetime | xtask/src/expand.rs:1142-1158 | the quote skip goes past a character literal, or past the apostrophe of a lifetime |
| BraceDelta.Scan | xtask/src/expand.rs:1071-1101 | the index loop computes the recursive scan of the line |
| BraceDelta.TokenScanned | xtask/src/expand.rs:1071-1158 | passing one token, whatever follows it, changes the depth by exactly the token's weight |
| BraceDelta.QuoteCharResyncs | xtask/src/expand.rs:1142-1158 | after the quote literal the scanner is in step again if and only if the rest does not read as a literal's end |
| BraceDelta.DeltaIsNet | xtask/src/expand.rs:1056-1101 | for every line rendered from tokens and a tail the answer is opening minus closing braces among the code tokens |
| BraceDelta.EveryLineReads | xtask/src/expand.rs:1056-1101 | every line without the quote literal is such a rendering, so the answer always counts the braces of a reading |
| BraceDelta.EveryLineScans | xtask/src/expand.rs:1056-1158 | every line at all has a reading of the scanner's own, and the answer is that reading's net braces |
| BraceDelta.RightExactly | xtask/src/expand.rs:1056-1158 | for a line that reads as tokens, the answer is right if and only if the scanner's reading has the same net braces |
| BraceDelta.QuoteLiteralMiscounts | xtask/src/expand.rs:1142-1158 | in a list of the quote literal and one more literal the latter is counted as code, so the answer is wrong exactly for a brace |
| StripLine.RawStringOpener | xtask/src/crates.rs:442-459 | a raw string opens exactly at an `r`, or `br`, that is not the tail of an identifier and is followed by hashes and a quote |
| StripLine.SkipRawFrom | xtask/src/crates.rs:463-475 | the skip goes just past the first quote with enough hashes, or to the end of the line |
| StripLine.SkipStringFrom | xtask/src/crates.rs:479-489 | the skip goes just past the first unescaped quote, or to the end of the line |
| StripLine.Strip | xtask/src/crates.rs:406-434 | the index loop computes the recursive stripping, and every slice it takes is at a character boundary |
| LineBytes.TextIsWellEncoded | xtask/src/crates.rs:406-434 | the bytes of every text meet what `Strip` asks of its line |
| LineBytes.BoundariesAre | xtask/src/crates.rs:406-434 | the positions `Strip` may slice at are exactly those between the characters of the text |
| LineBytes.WideLiteralIs | xtask/src/crates.rs:406-434 | the bytes of a literal of a character above ASCII are the token that stands for such literals |
| StripLine.StrippedOnlyRemoves | xtask/src/crates.rs:406-434 | for every line the output has no double quote and is a subsequence of the input |
| StripLine.RawPrefixes | xtask/src/crates.rs:442-459 | a string after `r` or `br` goes with its `r`; the `r` at an identifier's end stays, exactly for ASCII letters, digits and underscores |
| StripLine.StrippedIsCode | xtask/src/crates.rs:406-434 | for every line of code, strings, raw strings and a tail the output is exactly the code before the tail |
| StripLine.StripExact | xtask/src/crates.rs:406-434 | for every line of code, strings, raw strings, character literals, lifetimes and a tail, what is left is the line without its strings if and only if no character literal is a double quote, escaped or not |
| StripLine.QuoteCharOpensString | xtask/src/crates.rs:406-434 | a double-quote character literal swallows the rest of a line without another quote |
| StripLine.EscapedQuoteOpensString | xtask/src/crates.rs:406-434 | so does the escaped one |
| ExpandScan.ReadItem | xtask/src/expand.rs:676-684 | the item loop ends at the first line that closes the braces and can end an item, or at the last line |
| ExpandScan.LeaveModules | xtask/src/expand.rs:627-633 | modules deeper than the current depth are left |
| ExpandScan.Scan | xtask/src/expand.rs:615-717 | the scanning loop computes the recursive scan, and its line ranges are in bounds, ordered and disjoint |
| ExpandScan.ScanPlaces | xtask/src/expand.rs:615-717 | whatever the brace counter and the attribution answer, line ranges are in bounds, ordered and pairwise disjoint |
| ExpandScan.ItemEndsThere | xtask/src/expand.rs:676-684 | an item whose first balanced line that can end it is its last is read to that line |
| ExpandScan.ScanRecovers | xtask/src/expand.rs:615-717 | a well-formed expansion of nested modules and items, each with what stands in front of it, is scanned into exactly its items, with module paths, line numbers and texts |
| ExpandText.DeclaresExactly | xtask/src/expand.rs:750-762 | a line opens a module if and only if it is `mod` or `pub mod`, one word and a run of braces and spaces that ends in a brace |
| ExpandText.LineIs | xtask/src/expand.rs:635-684 | which lines are passed over, are attributes, open a module or start an item, and at which one can end |
| ExpandText.DeclarationIs | xtask/src/expand.rs:690-705 | an item is attributed by its text up to the first brace, trimmed, or by its first line when that is blank |
| ExpandLines.TokensRecover | xtask/src/expand.rs:615-717 | with the real brace counter: a source whose lines are rendered from tokens, with braces that are counted right and balance among the code tokens, is scanned into exactly its items |
| ExpandLines.InStepIsLexed | xtask/src/expand.rs:1056-1158 | braces are counted right on every line on which no quote literal puts the scanner out of step |
| ExpandText.PlainBraces | xtask/src/expand.rs:1071-1101 | on a line without quotes and slashes the answer is the number of opening minus closing braces |
| ExpandText.ModuleLines | xtask/src/expand.rs:1071-1101 | `mod name {` opens one brace, and a lone closing brace closes one |
| ExpandText.CodeIsScanned | xtask/src/expand.rs:615-717 | with the real brace counter: modules written as `mod name {` or `pub mod name {` at any indent, attributes, comments, blank lines and items are scanned into exactly those items, under their modules' paths, lines and declarations |
| ExpandMeasure.Describe | xtask/src/expand.rs:832-849 | the first pass relabels exactly the `Describe` impls whose subject has no `Schema` impl |
| ExpandMeasure.Assert | xtask/src/expand.rs:851-867 | the second pass gives each assertion block the attribution of the last item before it that is not one, if that is ours |
| ExpandMeasure.Layer | xtask/src/expand.rs:869-896 | the third pass gives the middleware every item whose header names a layer or a service, under the first such name |
| ExpandMeasure.ResolveHeuristics | xtask/src/expand.rs:831-897 | the three passes in place, in order |
| ExpandMeasure.ResolvedKeepsPlaces | xtask/src/expand.rs:831-897 | relabelling never moves an item, nor changes its header or module |
| ExpandMeasure.MiddlewareOwns | xtask/src/expand.rs:869-896 | after it, an item is the middleware's if and only if it was before the last pass or its header mentions a layer or its service |
| ExpandMeasure.AssertionFollows | xtask/src/expand.rs:851-896 | an assertion block ends with the origin of the item before it if and only if a stated condition on labels and headers holds |
| ExpandMeasure.LayersStay | xtask/src/expand.rs:851-875 | the second pass changes no layer |
| ExpandCharges.DescribedExactly | xtask/src/expand.rs:832-849 | the first pass, by the two traits it looks for: an item becomes the error derive's if and only if no `Schema` impl has its subject |
| ExpandCharges.AssertedExactly | xtask/src/expand.rs:851-867 | the second pass: a `const _: ()` block takes the label of the last other item above it if and only if that is one of the six macros' |
| ExpandCharges.ServiceExactly | xtask/src/expand.rs:880-883 | a layer's service is its name without every `Layer` at the end, and `Service` |
| ExpandCharges.LayeredExactly | xtask/src/expand.rs:869-896 | the third pass: the label goes to the first layer by name in the header, else to the first service, and nothing changes without either |
| ExpandMeasure.AssertionMissed | xtask/src/expand.rs:851-896 | items for which it does not |
| ExpandMeasure.GroupByOrigin | xtask/src/expand.rs:462-465 | grouping keeps each origin's items, in order, and makes no empty group |
| ExpandMeasure.AddUp | xtask/src/expand.rs:456-588 | one cost per origin that appears and is not hand-written, in declaration order, with its item and line totals |
| ExpandMeasure.Measure | xtask/src/expand.rs:452-591 | generated lines are the number of distinct lines inside our items, never exceed the total, and equal the sum of our macros' line totals |
| ExpandMeasure.GeneratedLines | xtask/src/expand.rs:456-460 | for items in their places adding sizes counts each generated line once |
| ExpandMeasure.MosoTotals | xtask/src/expand.rs:475-588 | the per-macro totals over our origins sum exactly to the generated lines |
| ExpandCharges.ChargesExactly | xtask/src/expand.rs:456-576 | one charge for each origin with items that is not hand-written, in the order Endpoint to StdDerive, with the number of its items and of the distinct lines inside them |
| ExpandCharges.ItemsAddUp | xtask/src/expand.rs:462-576 | the item counts sum to the number of items that are not hand-written |
| ExpandCharges.GeneratedAre | xtask/src/expand.rs:144-460 | the generated lines are those inside items of the six macros, and the charges of those macros sum to their number |
| Manifest.BumpManifest | xtask/src/release.rs:200-237 | the line loop computes the rewritten text and the numbered list of changed lines |
| ManifestLines.LineComesOut | xtask/src/release.rs:206-229 | every line of every text: a pin has its pins moved, the version under `[workspace.package]` is replaced, everything else stays |
| ManifestLines.TextComesOut | xtask/src/release.rs:200-237 | the text is those lines joined by newlines, with the final newline it had |
| ManifestLines.TableIs | xtask/src/release.rs:206-209 | the table in force is the nearest line at or above that reads as a bracketed header |
| ManifestLines.ChangesAre | xtask/src/release.rs:210-226 | the changes list exactly the pins and the workspace version, in order, numbered from 1 |
| ManifestLines.ReplaceIsSplitJoin | xtask/src/release.rs:211-220 | replacing puts the new text between the pieces that the old one separates |
| ManifestLines.LineEnds | xtask/src/release.rs:204-204 | a line ends at a newline or CRLF, which is not part of it |
| Manifest.ReplaceBack | xtask/src/release.rs:210-228 | replacing back undoes replacing when the replacement was not there before |
| Manifest.NothingElseAppears | xtask/src/release.rs:210-228 | replacing one quoted version brings in no other quoted text, not even across a seam |
| Manifest.LineRoundTrip | xtask/src/release.rs:206-229 | each line comes back, with the tables in force on the way there and back possibly different |
| Manifest.BumpedLines | xtask/src/release.rs:200-237 | the rewritten text has as many lines and the same final newline, and they are exactly the rewritten lines if and only if no newline has two carriage returns before it |
| Manifest.PlainExact | xtask/src/release.rs:205-205 | no line of a text ends in a carriage return before its newline if and only if no two stood there |
| ManifestRoundTrip.BackExactly | xtask/src/release.rs:211-212 | replacing a quoted version there and back restores a text if and only if a scan for the one does not come across the other, shared quotes accounted for |
| ManifestRoundTrip.LineExactly | xtask/src/release.rs:206-229 | a line comes back if and only if its own condition holds, which depends on its kind and on what the way back would meet |
| ManifestRoundTrip.LooksPinnedExactly | xtask/src/release.rs:210-228 | a rewritten version line is taken for a pin on the way back if and only if it had such a pin already |
| ManifestRoundTrip.SharedQuoteComesBack | xtask/src/release.rs:211-212 | a line that pins the other version and comes back all the same |
| ManifestRoundTrip.BumpRoundTripExactly | xtask/src/release.rs:200-237 | bumping any manifest there and back restores it if and only if it has no CRLF and each of its lines meets its condition |
| ManifestRoundTrip.BumpThereAndBack | xtask/src/release.rs:200-237 | in particular it does, character for character, when the target version is quoted nowhere in a manifest without CRLF |
| ManifestRoundTrip.LineKeptExactly | xtask/src/release.rs:172-177 | a line of any text comes out as it went in if and only if it is neither a pin nor the workspace version and has no carriage return left before its newline |
| Manifest.OtherLinesStay | xtask/src/release.rs:172-177 | every line but pins and the workspace version comes out as it went in, at the same place, and those two kinds do not; a carriage return left before a newline is lost besides |
| Manifest.LineChanges | xtask/src/release.rs:206-229 | a line changes if and only if it is a pin of the old version, in whatever table, or the workspace package's version |
| Manifest.PinElsewhereMoves | xtask/src/release.rs:210-216 | a manifest whose pin under `[patch]` is moved |
| Manifest.ReplaceChanges | xtask/src/release.rs:210-228 | replacing a quoted version that occurs by another changes the text |
| Manifest.ForeignPinIsRewritten | xtask/src/release.rs:210-216 | a line that already pinned the target comes back changed |
| Manifest.RejoinExact | xtask/src/release.rs:232-235 | splitting and rejoining is the identity if and only if the text has no CRLF |
| ApiKeyFormat.ParseExact | crates/moso-auth/src/apikey.rs:263-289 | a string parses to parts if and only if it is their printed form, they are well formed and it is at most 256 long |
| ApiKeyFormat.ParseSpelledOut | crates/moso-auth/src/apikey.rs:263-289 | the accepted strings spelled out: `mso_live_` or `mso_test_`, eight lowercase hexadecimal digits, an underscore, a base64url secret, 256 characters at most |
| ApiKeyFormat.HexText | crates/moso-auth/src/apikey.rs:342-349 | the byte loop writes two lowercase digits a byte, the high one first |
| ApiKeyFormat.GeneratedParses | crates/moso-auth/src/apikey.rs:218-244 | every generated key parses to its own environment, prefix and secret, underscores in the secret included |
| ApiKeyFormat.GeneratedInjective | crates/moso-auth/src/apikey.rs:218-244 | different draws print different keys |
| ApiKeyStore.MemoryApiKeyStore.InsertKey | crates/moso-auth/src/apikey.rs:566-581 | a key is filed under its prefix, or refused when that is taken |
| ApiKeyStore.MemoryApiKeyStore.RevokeKey | crates/moso-auth/src/apikey.rs:606-620 | a first revocation sets the tombstone; an unknown or revoked key is left alone |
| ApiKeyStore.MemoryApiKeyStore.TouchKey | crates/moso-auth/src/apikey.rs:622-630 | only the key's last use changes |
| ApiKeyStore.Authenticate | crates/moso-auth/src/apikey.rs:809-846 | the checks in their order: shape, environment, lookup, secret, then the key's state |
| ApiKeyStore.AcceptedExactly | crates/moso-auth/src/apikey.rs:809-846 | a string authenticates as a record if and only if it prints that live record's environment, prefix and secret |
| ApiKeyStore.RefusedExactly | crates/moso-auth/src/apikey.rs:809-846 | revoked and expired are answered if and only if the string prints such a record of an accepted environment; everything else refused is invalid |
| ApiKeyStore.OtherRecordsDoNotShow | crates/moso-auth/src/apikey.rs:827-838 | two stores that differ only in records the string does not present answer alike |
| ApiKeyStore.InsertIs | crates/moso-auth/src/apikey.rs:566-581 | an insert adds the record where its prefix is free and changes nothing else |
| ApiKeyStore.UpdateIs | crates/moso-auth/src/apikey.rs:606-630 | a revocation dates an undated tombstone, a use dates the last use, of the record with that id |
| ApiKeyStore.UnknownIdIsLeftAlone | crates/moso-auth/src/apikey.rs:606-630 | an id nobody has is neither revoked nor touched |
| ApiKeyStore.StepKeepsValid | crates/moso-auth/src/apikey.rs:565-631 | every operation keeps records filed under their own prefix and ids unique |
| ApiKeyStore.RecordsStay | crates/moso-auth/src/apikey.rs:565-631 | in every interleaving records never vanish, only timestamps change and a set revocation never does |
| ApiKeyStore.RevokedForGood | crates/moso-auth/src/apikey.rs:606-620 | no authentication whose lookup follows a successful revocation returns that key |
| ApiKeyStore.LiveKeyAuthenticates | crates/moso-auth/src/apikey.rs:809-846 | a generated key that was stored authenticates as its own record until it is revoked or expires |
| TouchTable.Limiter.ShouldTouch | crates/moso-auth/src/apikey.rs:871-892 | the limiter's step on its table and its answer |
| TouchTable.RecentExactly | crates/moso-auth/src/apikey.rs:874-886 | a grant is recent until an interval after it, also for a clock that reads earlier, and the sweep keeps exactly the recent ones |
| TouchTable.TableIsBounded | crates/moso-auth/src/apikey.rs:871-892 | in every run the table holds at most 4096 keys |
| TouchTable.ClearMeansFullTable | crates/moso-auth/src/apikey.rs:880-888 | a clear means 4096 distinct keys were granted within one interval of it |
| TouchTable.EarlyRegrantNeedsClear | crates/moso-auth/src/apikey.rs:880-888 | two grants to one key closer than the interval have a clear between them |
| TouchTable.GrantedExactly | crates/moso-auth/src/apikey.rs:871-892 | within an interval of a grant a later call of the key is granted if and only if a clear separates it from the key's call before |
| TouchTable.GrantsCounted | crates/moso-auth/src/apikey.rs:871-892 | so the grants are that one and one for each call that a clear separates |
| TouchTable.GrantsWithinInterval | crates/moso-auth/src/apikey.rs:880-888 | within one interval a key is granted at most one write more than there are clears |
| TouchTable.BoundIsAttained | crates/moso-auth/src/apikey.rs:880-888 | for any number of clears a run at one moment attains that bound |
| TouchTable.AnswersAgree | crates/moso-auth/src/apikey.rs:871-892 | until the first clear the answers are those of a limiter that never forgets |
| TouchTable.RefusedExactly | crates/moso-auth/src/apikey.rs:876-890 | a write is refused if and only if one was granted to the key less than an interval ago with no clear since |
| Utf8.AsciiRoundTrip | crates/moso-auth/src/jwks.rs:822-824 | ASCII text is read back from its bytes |
| Utf8.Utf8Exactly | crates/moso-auth/src/jwks.rs:822-824 | bytes are read as a text if and only if they are its UTF-8 encoding, written out for one to four bytes |
| TextFacts.WhitespaceIs | crates/moso-auth/src/jwks.rs:954-954 | the 25 characters that trimming removes |
| TextFacts.TrimParts | crates/moso-auth/src/jwks.rs:954-954 | trimming takes white space off both ends and leaves none there |
| TextFacts.TrimOf | crates/moso-auth/src/jwks.rs:954-954 | and nothing else |
| TextFacts.LowerExactly | crates/moso-auth/src/jwks.rs:955-963 | two texts are equal but for case if and only if they differ only in the case of ASCII letters |
| TextFacts.SplitPieces | crates/moso-auth/src/jwks.rs:940-943 | splitting leaves pieces without the separator that, joined by it, are the text |
| TextFacts.ParseHexExactly | crates/moso-auth/src/jwks.rs:984-984 | parsing in hexadecimal reads exactly the spellings in digits of either case, perhaps with a plus, up to the limit |
| TextFacts.ParseDecimalExactly | crates/moso-auth/src/jwks.rs:947-965 | parsing reads a number if and only if the text spells it in decimal, with zeros or a plus in front, up to the limit |
| Text.FindInPrefix | crates/moso-auth/src/jwks.rs:912-914 | an end of head found in a prefix of the stream is found at the same place in the stream |

## Left out

- Sockets, TLS, timeouts, `fetch`, `get` and `split_url`: the peer is a list of blocks and an ending.
- Signature checks, SHA-256, argon2 and the random generator: digests are constructors, draws are parameters.
- Constant-time comparison and `dummy_verify`: time is not modelled.
- Login.DatabaseBackend.Authenticate: one call at a time; the second steps of one account at once are in `SecondSteps`, without writes that fail.
- LoginRuns.PeriodsIncrease: an edit from elsewhere that lowers the period, such as a new enrolment, ends what it says.
- The wording of the blockers' messages, which is a parameter; cycles that need two dev edges, which the source does not look for either.
- The ORM and the key-value service: a map of rows and a map of entries with atomic operations.
- `validate` and a backend without its columns: the columns are there.
- `normalise` and other case folding: an identity comes with both of its spellings.
- ChallengeStore.RunKeepsInvariant: a token that was minted before is not drawn again, by assumption.
- JSON documents, `JwkSet::find` and `is_signing_key`: easy members only.
- `from_metadata_json`, `cargo tree` parsing and the other dependency rules: JSON walking and table look-ups.
- ExpandScan.Scan: the brace counter and `attribute` are parameters; `ExpandLines.TokensRecover` puts the real counter in, and the text matching of `attribute` is not modelled.
- ExpandMeasure.Measure: takes the lines rather than the text, and leaves out units, budgets, offenders and `declared_types`, which are sums and comparisons.
- ExpandMeasure.AddUp: leaves out units, budgets and offenders, as `Measure` does.
- CivilDate.CivilDate: the date as three numbers, not the text `YYYY-MM-DD`.
- `list_for_owner`, `presented_in` and the background write of `record_use`: order of listing and header plumbing.
- Lock poisoning in the API key store and the limiter.
- `uses_unsafe`, the other source rules, benchmarks, rustdoc checks and the website: presentation and process running.

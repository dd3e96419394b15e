/** `Content-Length` frames, the base protocol of the Debug Adapter Protocol: an incremental parser and a printer. */
module DebugFraming {
  import opened Common

  type Byte = b: int | 0 <= b < 256

  type Bytes = seq<Byte>

  // ---------------------------------------------------------------- the header

  const BLANK_LINE: Bytes := [13, 10, 13, 10]

  /** "content-length: " */
  const FIELD_NAME: Bytes := [99, 111, 110, 116, 101, 110, 116, 45, 108, 101, 110, 103, 116, 104, 58, 32]

  /** "Content-Length: " */
  const PRINTED_FIELD_NAME: Bytes := [67, 111, 110, 116, 101, 110, 116, 45, 76, 101, 110, 103, 116, 104, 58, 32]

  /** Where the first blank line starts. */
  function HeaderEnd(s: Bytes): (r: Option<nat>)
    ensures r.Some? ==> r.value + 4 <= |s| && s[r.value..r.value + 4] == BLANK_LINE
  {
    if |s| < 4 then None
    else if s[..4] == BLANK_LINE then Some(0)
    else
      var later := HeaderEnd(s[1..]);
      if later.Some? then Some(later.value + 1) else None
  }

  /** Decoding as ASCII drops the high bit. */
  function Ascii(b: Byte): Byte {
    b % 128
  }

  function LowerCase(b: Byte): Byte {
    if 65 <= b <= 90 then b + 32 else b
  }

  predicate IsDigit(b: Byte) {
    48 <= b <= 57
  }

  /** The longest run of digits at the start. */
  function Digits(s: Bytes): (digits: Bytes)
    ensures digits <= s
  {
    if s != [] && IsDigit(s[0]) then [s[0]] + Digits(s[1..]) else []
  }

  function Number(digits: Bytes): nat
    requires forall i :: 0 <= i < |digits| ==> IsDigit(digits[i])
  {
    if digits == [] then 0
    else
      assert IsDigit(digits[|digits| - 1]);
      Number(digits[..|digits| - 1]) * 10 + digits[|digits| - 1] - 48
  }

  lemma {:induction false} DigitsAreDigits(s: Bytes)
    ensures forall i :: 0 <= i < |Digits(s)| ==> IsDigit(Digits(s)[i])
  {
    if s != [] && IsDigit(s[0]) {
      DigitsAreDigits(s[1..]);
    }
  }

  function Decoded(header: Bytes): (decoded: Bytes)
    ensures |decoded| == |header|
  {
    seq(|header|, i requires 0 <= i < |header| => Ascii(header[i]))
  }

  predicate NamesField(s: Bytes) {
    |FIELD_NAME| <= |s| && forall i :: 0 <= i < |FIELD_NAME| ==> LowerCase(s[i]) == FIELD_NAME[i]
  }

  /** The first match of /Content-Length: (\d+)/i in a decoded header, as the number it captures. */
  function ContentLength(s: Bytes): Option<nat> {
    if s == [] then None
    else if NamesField(s) && Digits(s[|FIELD_NAME|..]) != [] then
      DigitsAreDigits(s[|FIELD_NAME|..]);
      Some(Number(Digits(s[|FIELD_NAME|..])))
    else ContentLength(s[1..])
  }

  // ---------------------------------------------------------------- extraction

  type Message(==, !new)

  datatype Request = Initialize | Launch | Attach(port: nat) | Other

  /** How message bodies are read and written, and what the relay looks at in them. */
  datatype Protocol = Protocol(
    parse: Bytes -> Option<Message>,
    write: Message -> Bytes,
    request: Message -> Request,
    withSeq: (Message, nat) -> Message,
    initializeResponse: (nat, Message) -> Message
  )
  {
    /** Reading what was written gives the message back. */
    ghost predicate RoundTrips() {
      forall m :: parse(write(m)) == Some(m)
    }
  }

  /** What a buffer starts with: not yet a whole frame, a header without a length, or a whole frame. */
  datatype Start = Incomplete | Skipped(end: nat) | Whole(bodyStart: nat, bodyEnd: nat)

  function StartOf(s: Bytes): (start: Start)
    ensures start.Skipped? ==> 0 < start.end <= |s|
    ensures start.Whole? ==> 0 < start.bodyStart <= start.bodyEnd <= |s|
  {
    var end := HeaderEnd(s);
    if end.None? then Incomplete
    else
      var length := ContentLength(Decoded(s[..end.value]));
      var bodyStart := end.value + 4;
      if length.None? then Skipped(bodyStart)
      else if |s| < bodyStart + length.value then Incomplete
      else Whole(bodyStart, bodyStart + length.value)
  }

  type Extracted = (seq<Message>, Bytes)

  function After(messages: seq<Message>, extracted: Extracted): Extracted {
    (messages + extracted.0, extracted.1)
  }

  /** One message, or none where the body could not be parsed. */
  function Parsed(p: Protocol, body: Bytes): seq<Message> {
    var message := p.parse(body);
    if message.Some? then [message.value] else []
  }

  /** The complete messages of a buffer, and the bytes from the first incomplete one on. */
  function Extract(p: Protocol, s: Bytes): Extracted
    decreases |s|
  {
    match StartOf(s)
    case Incomplete => ([], s)
    case Skipped(end) => Extract(p, s[end..])
    case Whole(bodyStart, bodyEnd) => After(Parsed(p, s[bodyStart..bodyEnd]), Extract(p, s[bodyEnd..]))
  }

  lemma AfterNothing(extracted: Extracted)
    ensures After([], extracted) == extracted
  {
    assert [] + extracted.0 == extracted.0;
  }

  lemma AfterTwice(a: seq<Message>, b: seq<Message>, extracted: Extracted)
    ensures After(a, After(b, extracted)) == After(a + b, extracted)
  {
    assert a + (b + extracted.0) == (a + b) + extracted.0;
  }

  /** What is left to extract, after one turn of the loop. */
  lemma ExtractStep(p: Protocol, whole: Extracted, rest: Bytes, messages: seq<Message>)
    requires whole == After(messages, Extract(p, rest))
    ensures var start := StartOf(rest);
            && (start.Incomplete? ==> whole == (messages, rest))
            && (start.Skipped? ==> whole == After(messages, Extract(p, rest[start.end..])))
            && (start.Whole? ==>
                  var parsed := Parsed(p, rest[start.bodyStart..start.bodyEnd]);
                  whole == After(messages + parsed, Extract(p, rest[start.bodyEnd..])))
  {
    match StartOf(rest)
    case Incomplete =>
      assert messages + [] == messages;
    case Skipped(end) =>
    case Whole(bodyStart, bodyEnd) =>
      AfterTwice(messages, Parsed(p, rest[bodyStart..bodyEnd]), Extract(p, rest[bodyEnd..]));
  }

  /** The loop over a buffer; `remaining` is the view of the buffer from the current position on. */
  method ExtractMessages(p: Protocol, buffer: Bytes) returns (messages: seq<Message>, remaining: Bytes)
    ensures (messages, remaining) == Extract(p, buffer)
  {
    messages, remaining := [], buffer;
    ghost var whole := Extract(p, buffer);
    AfterNothing(whole);
    var start := StartOf(remaining);
    while !start.Incomplete?
      invariant start == StartOf(remaining)
      invariant whole == After(messages, Extract(p, remaining))
      decreases |remaining|
    {
      ExtractStep(p, whole, remaining, messages);
      match start {
        case Skipped(end) =>
          remaining := remaining[end..];
        case Whole(bodyStart, bodyEnd) =>
          messages := messages + Parsed(p, remaining[bodyStart..bodyEnd]);
          remaining := remaining[bodyEnd..];
      }
      start := StartOf(remaining);
    }
    ExtractStep(p, whole, remaining, messages);
  }

  // ---------------------------------------------------------------- chunking

  /** More input does not move the first blank line. */
  lemma {:induction false} HeaderEndIsStable(s: Bytes, t: Bytes)
    requires HeaderEnd(s).Some?
    ensures HeaderEnd(s + t) == HeaderEnd(s)
  {
    if s[..4] != BLANK_LINE {
      HeaderEndIsStable(s[1..], t);
      assert (s + t)[1..] == s[1..] + t;
      assert (s + t)[..4] == s[..4];
    } else {
      assert (s + t)[..4] == s[..4];
    }
  }

  lemma StartIsStable(s: Bytes, t: Bytes)
    requires !StartOf(s).Incomplete?
    ensures StartOf(s + t) == StartOf(s)
  {
    HeaderEndIsStable(s, t);
    var end := HeaderEnd(s).value;
    assert (s + t)[..end] == s[..end];
  }

  /** What is extracted from a buffer and from what it leaves, with more input, is what is extracted from both. */
  lemma {:induction false} ExtractMore(p: Protocol, s: Bytes, t: Bytes)
    ensures var (messages, rest) := Extract(p, s); Extract(p, s + t) == After(messages, Extract(p, rest + t))
    decreases |s|
  {
    match StartOf(s) {
      case Incomplete =>
        AfterNothing(Extract(p, s + t));
      case Skipped(end) =>
        StartIsStable(s, t);
        assert (s + t)[end..] == s[end..] + t;
        ExtractMore(p, s[end..], t);
      case Whole(bodyStart, bodyEnd) =>
        var (later, rest) := Extract(p, s[bodyEnd..]);
        ExtractMore(p, s[bodyEnd..], t);
        WholeFirst(p, s, t);
        AfterTwice(Parsed(p, s[bodyStart..bodyEnd]), later, Extract(p, rest + t));
    }
  }

  /** A whole frame comes out first, whatever follows. */
  lemma WholeFirst(p: Protocol, s: Bytes, t: Bytes)
    requires StartOf(s).Whole?
    ensures var Whole(bodyStart, bodyEnd) := StartOf(s);
            Extract(p, s + t) == After(Parsed(p, s[bodyStart..bodyEnd]), Extract(p, s[bodyEnd..] + t))
  {
    var Whole(bodyStart, bodyEnd) := StartOf(s);
    StartIsStable(s, t);
    assert (s + t)[bodyEnd..] == s[bodyEnd..] + t;
    assert (s + t)[bodyStart..bodyEnd] == s[bodyStart..bodyEnd];
  }

  function Concat(chunks: seq<Bytes>): Bytes {
    if chunks == [] then [] else Concat(chunks[..|chunks| - 1]) + chunks[|chunks| - 1]
  }

  /** Input fed chunk by chunk, with what each step leaves carried over, is extracted as if it came at once. */
  method ExtractChunks(p: Protocol, chunks: seq<Bytes>) returns (messages: seq<Message>, remaining: Bytes)
    ensures (messages, remaining) == Extract(p, Concat(chunks))
  {
    messages, remaining := [], [];
    for i := 0 to |chunks|
      invariant (messages, remaining) == Extract(p, Concat(chunks[..i]))
    {
      assert chunks[..i + 1][..i] == chunks[..i];
      ExtractMore(p, Concat(chunks[..i]), chunks[i]);
      var more: seq<Message>;
      more, remaining := ExtractMessages(p, remaining + chunks[i]);
      messages := messages + more;
    }
    assert chunks[..|chunks|] == chunks;
  }

  /** A remainder has nothing to extract. */
  lemma {:induction false} RemainderIsIncomplete(p: Protocol, s: Bytes)
    ensures var rest := Extract(p, s).1; Extract(p, rest) == ([], rest)
    decreases |s|
  {
    match StartOf(s)
    case Incomplete =>
    case Skipped(end) => RemainderIsIncomplete(p, s[end..]);
    case Whole(_, bodyEnd) => RemainderIsIncomplete(p, s[bodyEnd..]);
  }

  // ---------------------------------------------------------------- printing

  function Decimal(n: nat): Bytes {
    if n < 10 then [48 + n] else Decimal(n / 10) + [48 + n % 10]
  }

  function Frame(p: Protocol, m: Message): Bytes {
    var body := p.write(m);
    PRINTED_FIELD_NAME + Decimal(|body|) + BLANK_LINE + body
  }

  function FrameAll(p: Protocol, messages: seq<Message>): Bytes {
    if messages == [] then [] else FrameAll(p, messages[..|messages| - 1]) + Frame(p, messages[|messages| - 1])
  }

  lemma {:induction false} DecimalRoundTrip(n: nat)
    ensures |Decimal(n)| > 0 && forall i :: 0 <= i < |Decimal(n)| ==> IsDigit(Decimal(n)[i])
    ensures Number(Decimal(n)) == n
  {
    if n >= 10 {
      DecimalRoundTrip(n / 10);
      assert Decimal(n)[..|Decimal(n)| - 1] == Decimal(n / 10);
    } else {
      assert Decimal(n)[..0] == [];
    }
  }

  lemma {:induction false} DigitsOfDigits(s: Bytes)
    requires forall i :: 0 <= i < |s| ==> IsDigit(s[i])
    ensures Digits(s) == s
  {
    if s != [] {
      DigitsOfDigits(s[1..]);
    }
  }

  /** A header line without a carriage return ends at the first blank line. */
  lemma {:induction false} FirstBlankLine(line: Bytes, rest: Bytes)
    requires 13 !in line
    ensures HeaderEnd(line + BLANK_LINE + rest) == Some(|line|)
  {
    var s := line + BLANK_LINE + rest;
    if line == [] {
      assert s[..4] == BLANK_LINE;
    } else {
      assert s[0] == line[0] != 13;
      assert s[..4][0] != 13;
      FirstBlankLine(line[1..], rest);
      assert s[1..] == line[1..] + BLANK_LINE + rest;
    }
  }

  lemma PrintedHeaderIsRead(n: nat)
    ensures var line := PRINTED_FIELD_NAME + Decimal(n);
            13 !in line && ContentLength(Decoded(line)) == Some(n)
  {
    DecimalRoundTrip(n);
    DigitsOfDigits(Decimal(n));
    PrintedLine(Decimal(n));
  }

  lemma PrintedLine(digits: Bytes)
    requires digits != [] && forall i :: 0 <= i < |digits| ==> IsDigit(digits[i])
    requires Digits(digits) == digits
    ensures var line := PRINTED_FIELD_NAME + digits;
            13 !in line && ContentLength(Decoded(line)) == Some(Number(digits))
  {
    var line := PRINTED_FIELD_NAME + digits;
    PlainLine(digits);
    DecodedPlain(line);
    LengthAfterName(line, digits);
  }

  lemma PlainLine(digits: Bytes)
    requires forall i :: 0 <= i < |digits| ==> IsDigit(digits[i])
    ensures var line := PRINTED_FIELD_NAME + digits;
            13 !in line && IsPlain(line)
  {
    assert 13 !in PRINTED_FIELD_NAME && 13 !in digits;
    assert IsPlain(PRINTED_FIELD_NAME) && IsPlain(digits);
  }

  predicate IsPlain(s: Bytes) {
    forall i :: 0 <= i < |s| ==> s[i] < 128
  }

  lemma DecodedPlain(s: Bytes)
    requires IsPlain(s)
    ensures Decoded(s) == s
  {
  }

  lemma LengthAfterName(line: Bytes, digits: Bytes)
    requires line == PRINTED_FIELD_NAME + digits && digits != [] && Digits(digits) == digits
    requires forall i :: 0 <= i < |digits| ==> IsDigit(digits[i])
    ensures ContentLength(line) == Some(Number(digits))
  {
    assert line[16..] == digits;
    assert NamesField(line) by {
      assert forall i :: 0 <= i < 16 ==> LowerCase(PRINTED_FIELD_NAME[i]) == FIELD_NAME[i];
    }
  }

  /** A printed message in front of anything is extracted, whole and by itself. */
  lemma FrameIsExtracted(p: Protocol, m: Message, rest: Bytes)
    requires p.parse(p.write(m)) == Some(m)
    ensures Extract(p, Frame(p, m) + rest) == After([m], Extract(p, rest))
  {
    var body := p.write(m);
    var line := PRINTED_FIELD_NAME + Decimal(|body|);
    var s := Frame(p, m) + rest;
    PrintedHeaderIsRead(|body|);
    FirstBlankLine(line, body + rest);
    assert s == line + BLANK_LINE + (body + rest);
    assert s[..|line|] == line;
    assert s[|line| + 4..] == body + rest;
    assert s[|line| + 4..|line| + 4 + |body|] == body;
    assert s[|line| + 4 + |body|..] == rest;
    assert StartOf(s) == Whole(|line| + 4, |line| + 4 + |body|);
  }

  lemma LastFrame(p: Protocol, messages: seq<Message>, rest: Bytes)
    requires messages != []
    ensures var init, last := messages[..|messages| - 1], messages[|messages| - 1];
            && FrameAll(p, messages) + rest == FrameAll(p, init) + (Frame(p, last) + rest)
            && init + [last] == messages
  {
    Assoc(FrameAll(p, messages[..|messages| - 1]), Frame(p, messages[|messages| - 1]), rest);
  }

  /** Parser and printer undo each other: printed messages in front of anything come out first, in order. */
  lemma {:induction false} FramesAreExtracted(p: Protocol, messages: seq<Message>, rest: Bytes)
    requires p.RoundTrips()
    ensures Extract(p, FrameAll(p, messages) + rest) == After(messages, Extract(p, rest))
  {
    if messages == [] {
      assert FrameAll(p, messages) + rest == rest;
      AfterNothing(Extract(p, rest));
    } else {
      var init, last := messages[..|messages| - 1], messages[|messages| - 1];
      FramesAreExtracted(p, init, Frame(p, last) + rest);
      FrameIsExtracted(p, last, rest);
      LastFrame(p, messages, rest);
      AfterTwice(init, [last], Extract(p, rest));
    }
  }

  // ---------------------------------------------------------------- any input, byte by byte

  ghost predicate IsBlankLineAt(s: Bytes, i: int) {
    0 <= i && i + 4 <= |s| && s[i] == 13 && s[i + 1] == 10 && s[i + 2] == 13 && s[i + 3] == 10
  }

  /** A header ends at the first carriage return, line feed, carriage return, line feed. */
  lemma {:induction false} HeaderEndIs(s: Bytes, end: nat)
    requires forall i :: 0 <= i < end ==> !IsBlankLineAt(s, i)
    ensures IsBlankLineAt(s, end) ==> HeaderEnd(s) == Some(end)
    ensures end >= |s| ==> HeaderEnd(s) == None
  {
    if |s| >= 4 {
      assert s[..4] == BLANK_LINE <==> IsBlankLineAt(s, 0);
      if end > 0 {
        forall i | 0 <= i < end - 1 ensures !IsBlankLineAt(s[1..], i) {
          assert !IsBlankLineAt(s, i + 1);
        }
        HeaderEndIs(s[1..], end - 1);
      }
    }
  }

  /** The letter, of either case, or the character itself. */
  predicate Spells(b: Byte, c: char) {
    b == c as int || ('a' <= c <= 'z' && b == c as int - 32)
  }

  /** The field's name in upper or lower case, then a digit. */
  ghost predicate IsLengthAt(s: Bytes, i: int) {
    && 0 <= i && i + 16 < |s| && 48 <= s[i + 16] <= 57
    && forall k :: 0 <= k < 16 ==> Spells(s[i + k], "content-length: "[k])
  }

  lemma NameIsSpelled(s: Bytes)
    ensures NamesField(s) && Digits(s[16..]) != [] <==> IsLengthAt(s, 0)
  {
    forall k | 0 <= k < 16 && 16 <= |s|
      ensures LowerCase(s[k]) == FIELD_NAME[k] <==> Spells(s[k], "content-length: "[k])
    {
    }
  }

  lemma ShiftedLength(s: Bytes, i: nat)
    requires i <= |s|
    ensures IsLengthAt(s[i..], 0) <==> IsLengthAt(s, i)
  {
    if i + 16 < |s| {
      assert forall k :: 0 <= k < 16 ==> Spells(s[i..][k], "content-length: "[k]) ==
                                         Spells(s[i + k], "content-length: "[k]);
    }
  }

  predicate AreDigits(s: Bytes) {
    forall k :: 0 <= k < |s| ==> 48 <= s[k] <= 57
  }

  lemma NotAtFirst(s: Bytes)
    requires s != [] && !IsLengthAt(s, 0)
    ensures ContentLength(s) == ContentLength(s[1..])
  {
    NameIsSpelled(s);
  }

  lemma AtFirst(s: Bytes)
    ensures IsLengthAt(s, 0) ==>
              AreDigits(Digits(s[16..])) && ContentLength(s) == Some(Number(Digits(s[16..])))
  {
    NameIsSpelled(s);
    if |s| >= 16 {
      DigitsAreDigits(s[16..]);
    }
  }

  lemma {:induction false} SkipTo(s: Bytes, i: nat)
    requires i <= |s| && forall j :: 0 <= j < i ==> !IsLengthAt(s, j)
    ensures ContentLength(s) == ContentLength(s[i..])
  {
    if i > 0 {
      SkipTo(s, i - 1);
      ShiftedLength(s, i - 1);
      NotAtFirst(s[i - 1..]);
      assert s[i - 1..][1..] == s[i..];
    } else {
      assert s[i..] == s;
    }
  }

  /** The length is read where the field's name, in either case, is first followed by a digit, from all digits there. */
  lemma ContentLengthIs(s: Bytes, i: nat)
    requires i <= |s| && forall j :: 0 <= j < i ==> !IsLengthAt(s, j)
    ensures i == |s| ==> ContentLength(s) == None
    ensures IsLengthAt(s, i) ==>
              AreDigits(Digits(s[i + 16..])) && ContentLength(s) == Some(Number(Digits(s[i + 16..])))
  {
    SkipTo(s, i);
    ShiftedLength(s, i);
    AtFirst(s[i..]);
    if i + 16 <= |s| {
      assert s[i..][16..] == s[i + 16..];
    }
  }

  /** All digits at the start: up to the end, or up to something else. */
  lemma {:induction false} DigitsAre(digits: Bytes, rest: Bytes)
    requires AreDigits(digits)
    requires rest == [] || !(48 <= rest[0] <= 57)
    ensures Digits(digits + rest) == digits
  {
    if digits == [] {
      assert digits + rest == rest;
    } else {
      assert (digits + rest)[1..] == digits[1..] + rest;
      DigitsAre(digits[1..], rest);
    }
  }

  /** Read as ASCII, every byte loses its high bit. */
  lemma DecodedBytes(header: Bytes, i: nat)
    requires i < |header|
    ensures Decoded(header)[i] == if header[i] >= 128 then header[i] - 128 else header[i]
  {
  }

  /** A header without a length is skipped, with its blank line. */
  lemma ExtractSkips(p: Protocol, s: Bytes, end: nat)
    requires IsBlankLineAt(s, end) && forall j :: 0 <= j < end ==> !IsBlankLineAt(s, j)
    requires forall j :: 0 <= j < end ==> !IsLengthAt(Decoded(s[..end]), j)
    ensures Extract(p, s) == Extract(p, s[end + 4..])
  {
    HeaderEndIs(s, end);
    ContentLengthIs(Decoded(s[..end]), end);
  }

  /** Where a header has a length, so many bytes are taken for a body, which gives its message or, if it cannot be
      parsed, none; until they are there, everything stays. */
  lemma ExtractTakes(p: Protocol, s: Bytes, end: nat, length: nat)
    requires IsBlankLineAt(s, end) && forall j :: 0 <= j < end ==> !IsBlankLineAt(s, j)
    requires ContentLength(Decoded(s[..end])) == Some(length)
    ensures |s| < end + 4 + length ==> Extract(p, s) == ([], s)
    ensures |s| >= end + 4 + length ==>
              var (later, remaining) := Extract(p, s[end + 4 + length..]);
              match p.parse(s[end + 4..end + 4 + length])
              case Some(message) => Extract(p, s) == ([message] + later, remaining)
              case None => Extract(p, s) == (later, remaining)
  {
    StartIs(s, end, length);
    if |s| >= end + 4 + length {
      AfterNothing(Extract(p, s[end + 4 + length..]));
    }
  }

  lemma StartIs(s: Bytes, end: nat, length: nat)
    requires IsBlankLineAt(s, end) && forall j :: 0 <= j < end ==> !IsBlankLineAt(s, j)
    requires ContentLength(Decoded(s[..end])) == Some(length)
    ensures StartOf(s) == if |s| < end + 4 + length then Incomplete else Whole(end + 4, end + 4 + length)
  {
    HeaderEndIs(s, end);
  }

  lemma ExtractNothing(p: Protocol, s: Bytes)
    requires forall j :: 0 <= j < |s| ==> !IsBlankLineAt(s, j)
    ensures Extract(p, s) == ([], s)
  {
    HeaderEndIs(s, |s|);
  }
}

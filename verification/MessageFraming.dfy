/**
The wire format of messages: the header of src/protocol.h and src/protocol.cpp, and what a
byte stream of frames says.

`Parse` is a function of a whole byte stream; the incremental receiver in NetTransport is
proved against it.  The network magic and the hash that checksums are cut from are parameters.
*/
module MessageFraming {
  import opened Basics
  import opened Numbers

  const HEADER_SIZE := 24
  const COMMAND_SIZE := 12
  const MAX_SIZE := 0x0200_0000
  const MAX_PROTOCOL_MESSAGE_LENGTH := 4_000_000

  type Four = s: seq<Byte> | |s| == 4 witness [0, 0, 0, 0]
  type Command = s: seq<Byte> | |s| == COMMAND_SIZE witness [0, 0, 0, 0, 0, 0, 0, 0, 0, 0, 0, 0]
  type U32 = x: int | 0 <= x < 0x1_0000_0000

  /** The magic bytes of the network and the first bytes of the double hash of some data. */
  datatype Params = Params(messageStart: Four, checksum: seq<Byte> -> Four)

  datatype Header = Header(messageStart: Four, command: Command, size: U32, checksum: Four)

  datatype NetMessage = NetMessage(msgType: seq<Byte>, data: seq<Byte>)

  // ---------------------------------------------------------------- the message header

  function WriteLE32(x: U32): Four {
    [x % 256, x / 0x100 % 256, x / 0x1_0000 % 256, x / 0x100_0000]
  }

  function ReadLE32(s: Four): U32 {
    var b0: int, b1: int, b2: int, b3: int := s[0], s[1], s[2], s[3];
    b0 + b1 * 0x100 + b2 * 0x1_0000 + b3 * 0x100_0000
  }

  lemma LE32RoundTrip(x: U32)
    ensures ReadLE32(WriteLE32(x)) == x
  {
    DivDiv(x, 0x100, 0x100);
    DivDiv(x, 0x1_0000, 0x100);
    QuotientBounds(x, 0x100);
    QuotientBounds(x / 0x100, 0x100);
    QuotientBounds(x / 0x1_0000, 0x100);
  }

  lemma LE32Unique(s: Four)
    ensures WriteLE32(ReadLE32(s)) == s
  {
    var b0: int, b1: int, b2: int, b3: int := s[0], s[1], s[2], s[3];
    var x: int := ReadLE32(s);
    DivUnique(x, 0x100, b1 + b2 * 0x100 + b3 * 0x1_0000, b0);
    DivUnique(x / 0x100, 0x100, b2 + b3 * 0x100, b1);
    DivUnique(x / 0x1_0000, 0x100, b3, b2);
    DivDiv(x, 0x100, 0x100);
    DivDiv(x, 0x1_0000, 0x100);
  }

  function EncodeHeader(h: Header): (s: seq<Byte>)
    ensures |s| == HEADER_SIZE
  {
    h.messageStart + h.command + WriteLE32(h.size) + h.checksum
  }

  function DecodeHeader(s: seq<Byte>): Header
    requires |s| == HEADER_SIZE
  {
    Header(s[..4], s[4..16], ReadLE32(s[16..20]), s[20..])
  }

  lemma HeaderRoundTrip(h: Header)
    ensures DecodeHeader(EncodeHeader(h)) == h
  {
    var s := EncodeHeader(h);
    assert s[..4] == h.messageStart && s[4..16] == h.command && s[16..20] == WriteLE32(h.size) && s[20..] == h.checksum;
    LE32RoundTrip(h.size);
  }

  lemma HeaderUnique(s: seq<Byte>)
    requires |s| == HEADER_SIZE
    ensures EncodeHeader(DecodeHeader(s)) == s
  {
    LE32Unique(s[16..20]);
  }

  /** The characters before the first zero. */
  function CString(s: seq<Byte>): (r: seq<Byte>)
    ensures |r| <= |s|
  {
    if s == [] || s[0] == 0 then [] else [s[0]] + CString(s[1..])
  }

  predicate Printable(c: Byte) { 0x20 <= c <= 0x7E }

  /** Printable characters up to some point, and zeros from there on. */
  predicate CommandValid(command: seq<Byte>) {
    && (forall i | 0 <= i < |command| :: command[i] == 0 || Printable(command[i]))
    && (forall i, j | 0 <= i < j < |command| :: command[i] == 0 ==> command[j] == 0)
  }

  method IsCommandValid(command: seq<Byte>) returns (ok: bool)
    ensures ok <==> CommandValid(command)
  {
    var p1 := 0;
    while p1 < |command|
      invariant 0 <= p1 <= |command|
      invariant forall i | 0 <= i < p1 :: Printable(command[i])
    {
      if command[p1] == 0 {
        ghost var first := p1;
        while p1 < |command|
          invariant first <= p1 <= |command|
          invariant forall i | first <= i < p1 :: command[i] == 0
        {
          if command[p1] != 0 {
            assert command[first] == 0;
            return false;
          }
          p1 := p1 + 1;
        }
        return true;
      } else if command[p1] < 0x20 || command[p1] > 0x7E {
        return false;
      }
      p1 := p1 + 1;
    }
    return true;
  }

  function Zeros(n: nat): (s: seq<Byte>)
    ensures |s| == n && forall i | 0 <= i < n :: s[i] == 0
  {
    seq(n, _ => 0)
  }

  function EncodeCommand(msgType: seq<Byte>): Command
    requires |CString(msgType)| <= COMMAND_SIZE
  {
    CString(msgType) + Zeros(COMMAND_SIZE - |CString(msgType)|)
  }

  lemma {:induction false} CStringHasNoZero(s: seq<Byte>)
    ensures forall i | 0 <= i < |CString(s)| :: CString(s)[i] != 0 && CString(s)[i] == s[i]
    ensures |CString(s)| < |s| ==> s[|CString(s)|] == 0
  {
    if s != [] && s[0] != 0 {
      CStringHasNoZero(s[1..]);
    }
  }

  lemma {:induction false} CStringOfPadded(s: seq<Byte>, n: nat)
    requires forall i | 0 <= i < |s| :: s[i] != 0
    ensures CString(s + Zeros(n)) == s
  {
    if s != [] {
      assert (s + Zeros(n))[1..] == s[1..] + Zeros(n);
      CStringOfPadded(s[1..], n);
    } else {
      assert s + Zeros(n) == Zeros(n);
    }
  }

  /** An encoded type reads back; it is valid exactly when its characters are printable. */
  lemma CommandRoundTrip(msgType: seq<Byte>)
    requires |CString(msgType)| <= COMMAND_SIZE
    ensures CString(EncodeCommand(msgType)) == CString(msgType)
    ensures CommandValid(EncodeCommand(msgType)) <==> forall i | 0 <= i < |CString(msgType)| :: Printable(CString(msgType)[i])
  {
    var c := CString(msgType);
    CStringHasNoZero(msgType);
    CStringOfPadded(c, COMMAND_SIZE - |c|);
    var e := EncodeCommand(msgType);
    assert forall i | 0 <= i < |c| :: e[i] == c[i];
  }

  // ---------------------------------------------------------------- what a byte stream says

  datatype Parsed = Parsed(messages: seq<NetMessage>, rest: seq<Byte>, failed: bool)

  predicate HeaderOk(params: Params, h: Header) {
    h.messageStart == params.messageStart && h.size <= MAX_SIZE && h.size <= MAX_PROTOCOL_MESSAGE_LENGTH
  }

  /** A complete frame yields one message, or none when its checksum or its type is wrong. */
  function Deliver(params: Params, h: Header, data: seq<Byte>): seq<NetMessage> {
    if params.checksum(data) == h.checksum && CommandValid(h.command) then [NetMessage(CString(h.command), data)] else []
  }

  function Prepend(messages: seq<NetMessage>, p: Parsed): Parsed {
    p.(messages := messages + p.messages)
  }

  lemma PrependTwice(a: seq<NetMessage>, b: seq<NetMessage>, p: Parsed)
    ensures Prepend(a, Prepend(b, p)) == Prepend(a + b, p)
  {
    assert a + (b + p.messages) == a + b + p.messages;
  }

  function Parse(params: Params, bytes: seq<Byte>): Parsed
    decreases |bytes|
  {
    if |bytes| < HEADER_SIZE then Parsed([], bytes, false)
    else
      var h := DecodeHeader(bytes[..HEADER_SIZE]);
      if !HeaderOk(params, h) then Parsed([], [], true)
      else if |bytes| < HEADER_SIZE + h.size then Parsed([], bytes, false)
      else
        var data := bytes[HEADER_SIZE..HEADER_SIZE + h.size];
        var next := Parse(params, bytes[HEADER_SIZE + h.size..]);
        Prepend(Deliver(params, h, data), next)
  }

  /** A whole frame at the front is parsed off. */
  lemma ParseFrame(params: Params, h: Header, data: seq<Byte>, more: seq<Byte>)
    requires HeaderOk(params, h) && |data| == h.size
    ensures Parse(params, EncodeHeader(h) + data + more) == Prepend(Deliver(params, h, data), Parse(params, more))
  {
    var bytes := EncodeHeader(h) + data + more;
    assert bytes[..HEADER_SIZE] == EncodeHeader(h);
    HeaderRoundTrip(h);
    assert bytes[HEADER_SIZE..HEADER_SIZE + h.size] == data;
    assert bytes[HEADER_SIZE + h.size..] == more;
  }

  predicate FrameReady(params: Params, bytes: seq<Byte>) {
    && |bytes| >= HEADER_SIZE && HeaderOk(params, DecodeHeader(bytes[..HEADER_SIZE]))
    && |bytes| >= HEADER_SIZE + DecodeHeader(bytes[..HEADER_SIZE]).size
  }

  /** Splits a stream that holds a whole frame. */
  lemma SplitFrame(params: Params, bytes: seq<Byte>) returns (h: Header, data: seq<Byte>, more: seq<Byte>)
    requires FrameReady(params, bytes)
    ensures HeaderOk(params, h) && |data| == h.size && bytes == EncodeHeader(h) + data + more
  {
    h := DecodeHeader(bytes[..HEADER_SIZE]);
    HeaderUnique(bytes[..HEADER_SIZE]);
    data, more := bytes[HEADER_SIZE..HEADER_SIZE + h.size], bytes[HEADER_SIZE + h.size..];
  }

  /** More bytes do not change what an incomplete frame or a bad header is. */
  lemma ParseNoFrame(params: Params, a: seq<Byte>, b: seq<Byte>)
    requires !FrameReady(params, a)
    ensures var p := Parse(params, a);
            p.messages == [] && if p.failed then Parse(params, a + b) == p else p.rest == a
  {
    if |a| >= HEADER_SIZE {
      assert (a + b)[..HEADER_SIZE] == a[..HEADER_SIZE];
    }
  }

  /** Parsing may stop anywhere and go on from what was left over. */
  ghost predicate Resumes(params: Params, a: seq<Byte>, b: seq<Byte>) {
    var p := Parse(params, a);
    Parse(params, a + b) == if p.failed then p else Prepend(p.messages, Parse(params, p.rest + b))
  }

  lemma {:induction false} ParseAppend(params: Params, a: seq<Byte>, b: seq<Byte>)
    ensures Resumes(params, a, b)
    decreases |a|
  {
    if FrameReady(params, a) {
      var h, data, more := SplitFrame(params, a);
      ParseAppend(params, more, b);
      ParseFrame(params, h, data, more);
      ParseFrameAnd(params, h, data, more, b);
      AppendFrame(params, Deliver(params, h, data), a, more, b);
    } else {
      ParseNoFrame(params, a, b);
    }
  }

  lemma ParseFrameAnd(params: Params, h: Header, data: seq<Byte>, more: seq<Byte>, b: seq<Byte>)
    requires HeaderOk(params, h) && |data| == h.size
    ensures Parse(params, EncodeHeader(h) + data + more + b) == Prepend(Deliver(params, h, data), Parse(params, more + b))
  {
    hide Parse, EncodeHeader, Deliver;
    assert EncodeHeader(h) + data + (more + b) == EncodeHeader(h) + data + more + b;
    ParseFrame(params, h, data, more + b);
  }

  lemma AppendFrame(params: Params, d: seq<NetMessage>, a: seq<Byte>, more: seq<Byte>, b: seq<Byte>)
    requires Parse(params, a) == Prepend(d, Parse(params, more))
    requires Parse(params, a + b) == Prepend(d, Parse(params, more + b))
    requires Resumes(params, more, b)
    ensures Resumes(params, a, b)
  {
    var p := Parse(params, more);
    Combine(d, p, Parse(params, p.rest + b), Parse(params, more + b));
  }

  lemma Combine(d: seq<NetMessage>, p: Parsed, q: Parsed, r: Parsed)
    requires r == if p.failed then p else Prepend(p.messages, q)
    ensures Prepend(d, r) == if p.failed then Prepend(d, p) else Prepend(Prepend(d, p).messages, q)
  {
    PrependTwice(d, p.messages, q);
  }

  /** What a parse leaves over is parsed as it stands: no message and no failure is in it. */
  lemma {:induction false} RestIsIncomplete(params: Params, bytes: seq<Byte>)
    ensures var p := Parse(params, bytes);
            !p.failed ==> Parse(params, p.rest) == Parsed([], p.rest, false)
    decreases |bytes|
  {
    if |bytes| >= HEADER_SIZE {
      var h := DecodeHeader(bytes[..HEADER_SIZE]);
      if HeaderOk(params, h) && |bytes| >= HEADER_SIZE + h.size {
        RestIsIncomplete(params, bytes[HEADER_SIZE + h.size..]);
      }
    }
  }

  // ---------------------------------------------------------------- frames

  function HeaderOf(params: Params, m: NetMessage): Header
    requires |CString(m.msgType)| <= COMMAND_SIZE && |m.data| < 0x1_0000_0000
  {
    Header(params.messageStart, EncodeCommand(m.msgType), |m.data|, params.checksum(m.data))
  }

  function Frame(params: Params, m: NetMessage): seq<Byte>
    requires |CString(m.msgType)| <= COMMAND_SIZE && |m.data| < 0x1_0000_0000
  {
    EncodeHeader(HeaderOf(params, m)) + m.data
  }

  predicate AllPrintable(s: seq<Byte>) {
    forall i | 0 <= i < |s| :: Printable(s[i])
  }

  /** What the receiver makes of any frame a sender can build. */
  lemma FrameOutcome(params: Params, m: NetMessage, more: seq<Byte>)
    requires |CString(m.msgType)| <= COMMAND_SIZE && |m.data| < 0x1_0000_0000
    ensures Parse(params, Frame(params, m) + more) ==
            if |m.data| > MAX_PROTOCOL_MESSAGE_LENGTH then Parsed([], [], true)
            else Prepend(if AllPrintable(CString(m.msgType)) then [NetMessage(CString(m.msgType), m.data)] else [],
                         Parse(params, more))
  {
    var h := HeaderOf(params, m);
    CommandRoundTrip(m.msgType);
    if |m.data| <= MAX_PROTOCOL_MESSAGE_LENGTH {
      ParseFrame(params, h, m.data, more);
    } else {
      var bytes := Frame(params, m) + more;
      assert bytes[..HEADER_SIZE] == EncodeHeader(h);
      HeaderRoundTrip(h);
    }
  }

  /** A type of printable characters that fits, and data within the limit. */
  predicate Sendable(m: NetMessage) {
    |m.msgType| <= COMMAND_SIZE && AllPrintable(m.msgType) && |m.data| <= MAX_PROTOCOL_MESSAGE_LENGTH
  }

  predicate AllSendable(ms: seq<NetMessage>) {
    forall i | 0 <= i < |ms| :: Sendable(ms[i])
  }

  lemma {:induction false} PrintableIsCString(s: seq<Byte>)
    requires AllPrintable(s)
    ensures CString(s) == s
  {
    if s != [] {
      PrintableIsCString(s[1..]);
    }
  }

  ghost function Stream(params: Params, ms: seq<NetMessage>): seq<Byte>
    requires AllSendable(ms)
  {
    if ms == [] then [] else
      PrintableIsCString(ms[0].msgType);
      Frame(params, ms[0]) + Stream(params, ms[1..])
  }

  /** Serialize, then parse: every sent message comes back, in order. */
  lemma {:induction false} StreamRoundTrip(params: Params, ms: seq<NetMessage>)
    requires AllSendable(ms)
    ensures Parse(params, Stream(params, ms)) == Parsed(ms, [], false)
  {
    if ms != [] {
      var m := ms[0];
      PrintableIsCString(m.msgType);
      FrameOutcome(params, m, Stream(params, ms[1..]));
      StreamRoundTrip(params, ms[1..]);
      assert [m] + ms[1..] == ms;
    }
  }

  /** However little of the stream has arrived, it parses to the first of the sent messages. */
  lemma PartialStream(params: Params, ms: seq<NetMessage>, arrived: seq<Byte>)
    requires AllSendable(ms) && arrived <= Stream(params, ms)
    ensures !Parse(params, arrived).failed && Parse(params, arrived).messages <= ms
  {
    StreamRoundTrip(params, ms);
    var all := Stream(params, ms);
    assert arrived + all[|arrived|..] == all;
    ParseAppend(params, arrived, all[|arrived|..]);
  }
}

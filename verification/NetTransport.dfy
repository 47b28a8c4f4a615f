/**
The message transport of src/net.cpp and src/net.h: `V1TransportDeserializer`,
`V1TransportSerializer`, `CNode::ReceiveMsgBytes`, `CConnman::SocketSendData` and
`CConnman::PushMessage`.

The receiver is proved against `Parse` in MessageFraming, the sender against the concatenation
of the frames pushed so far.  The incremental hash is the sequence of bytes written to it.
*/
module NetTransport {
  import opened Basics
  import opened MessageFraming

  const RESIZE_STEP := 256 * 1024

  function Min(a: nat, b: nat): nat { if a < b then a else b }

  /** A prefix kept, the rest cut off or filled with zeros. */
  function Resize(s: seq<Byte>, n: nat): (r: seq<Byte>)
    ensures |r| == n && r[..Min(n, |s|)] == s[..Min(n, |s|)]
  {
    if n <= |s| then s[..n] else s + Zeros(n - |s|)
  }

  function Overwrite(s: seq<Byte>, pos: nat, data: seq<Byte>): (r: seq<Byte>)
    requires pos + |data| <= |s|
    ensures |r| == |s| && r[..pos + |data|] == s[..pos] + data
  {
    s[..pos] + data + s[pos + |data|..]
  }

  // ---------------------------------------------------------------- receiving

  class V1TransportDeserializer {
    const params: Params
    var inData: bool
    var hdrbuf: seq<Byte>
    var hdr: Header
    var vRecv: seq<Byte>
    var nHdrPos: nat
    var nDataPos: nat
    var hasher: seq<Byte>

    ghost predicate Valid()
      reads this
    {
      && nDataPos <= |vRecv| && hasher == vRecv[..nDataPos]
      && if inData then HeaderOk(params, hdr) && |vRecv| <= hdr.size
         else |hdrbuf| == HEADER_SIZE && nHdrPos < HEADER_SIZE && vRecv == []
    }

    /** The bytes of the frame that is being received. */
    ghost function Pending(): seq<Byte>
      requires Valid()
      reads this
    {
      if inData then EncodeHeader(hdr) + vRecv[..nDataPos] else hdrbuf[..nHdrPos]
    }

    constructor (params: Params)
      ensures Valid() && this.params == params && !inData && Pending() == []
    {
      this.params := params;
      vRecv := [];
      hdrbuf := Zeros(HEADER_SIZE);
      inData := false;
      nHdrPos := 0;
      nDataPos := 0;
      hasher := [];
    }

    /** What is pending neither holds a message nor fails. */
    lemma PendingParses()
      requires Valid() && !Complete()
      ensures Parse(params, Pending()) == Parsed([], Pending(), false)
    {
      if inData {
        HeaderRoundTrip(hdr);
        assert Pending()[..HEADER_SIZE] == EncodeHeader(hdr);
      }
    }

    method Reset()
      modifies this
      ensures Valid() && !inData && Pending() == []
    {
      vRecv := [];
      hdrbuf := Zeros(HEADER_SIZE);
      inData := false;
      nHdrPos := 0;
      nDataPos := 0;
      hasher := [];
    }

    predicate Complete()
      reads this
    {
      inData && hdr.size == nDataPos
    }

    method ReadHeader(msgBytes: seq<Byte>) returns (ret: int)
      requires Valid() && !inData
      modifies this
      ensures ret < 0 <==> BadHeader(params, old(Pending()) + msgBytes)
      ensures ret >= 0 ==>
                && Valid() && ret <= |msgBytes| && (msgBytes != [] ==> ret > 0)
                && Pending() == old(Pending()) + msgBytes[..ret]
    {
      ghost var all := Pending() + msgBytes;
      var nRemaining := HEADER_SIZE - nHdrPos;
      var nCopy := Min(nRemaining, |msgBytes|);
      assert (hdrbuf[..nHdrPos] + msgBytes)[..nHdrPos + nCopy] == hdrbuf[..nHdrPos] + msgBytes[..nCopy];
      hdrbuf := Overwrite(hdrbuf, nHdrPos, msgBytes[..nCopy]);
      nHdrPos := nHdrPos + nCopy;
      if nHdrPos < HEADER_SIZE {
        return nCopy;
      }
      assert hdrbuf[..HEADER_SIZE] == hdrbuf;
      assert hdrbuf == all[..HEADER_SIZE];
      HeaderUnique(hdrbuf);
      hdr := DecodeHeader(hdrbuf);
      hdrbuf := [];
      if hdr.messageStart != params.messageStart {
        return -1;
      }
      if hdr.size > MAX_SIZE || hdr.size > MAX_PROTOCOL_MESSAGE_LENGTH {
        return -1;
      }
      inData := true;
      return nCopy;
    }

    method ReadData(msgBytes: seq<Byte>) returns (ret: nat)
      requires Valid() && inData
      modifies this
      ensures Valid() && inData && ret <= |msgBytes|
      ensures msgBytes != [] && !old(Complete()) ==> ret > 0
      ensures Pending() == old(Pending()) + msgBytes[..ret]
    {
      var nRemaining := hdr.size - nDataPos;
      var nCopy := Min(nRemaining, |msgBytes|);
      if |vRecv| < nDataPos + nCopy {
        var n := Min(hdr.size, nDataPos + nCopy + RESIZE_STEP);
        assert Resize(vRecv, n)[..nDataPos] == vRecv[..nDataPos];
        vRecv := Resize(vRecv, n);
      }
      hasher := hasher + msgBytes[..nCopy];
      vRecv := Overwrite(vRecv, nDataPos, msgBytes[..nCopy]);
      nDataPos := nDataPos + nCopy;
      return nCopy;
    }

    /** Takes bytes of one frame off the front: at least one, unless the header is bad. */
    method Read(msgBytes: seq<Byte>) returns (ret: int, rest: seq<Byte>)
      requires Valid() && !Complete()
      modifies this
      ensures Valid()
      ensures ret < 0 <==> !old(inData) && BadHeader(params, old(Pending()) + msgBytes)
      ensures ret < 0 ==> rest == msgBytes && !inData && Pending() == []
      ensures ret >= 0 ==>
                && ret <= |msgBytes| && (msgBytes != [] ==> ret > 0) && rest == msgBytes[ret..]
                && Pending() + rest == old(Pending()) + msgBytes
    {
      rest := msgBytes;
      if inData {
        ret := ReadData(msgBytes);
      } else {
        ret := ReadHeader(msgBytes);
      }
      if ret < 0 {
        Reset();
      } else {
        rest := msgBytes[ret..];
        assert msgBytes[..ret] + msgBytes[ret..] == msgBytes;
      }
    }

    /** The message that is complete, and whether its checksum or type make it void. */
    method GetMessage() returns (msg: NetMessage, reject: bool)
      requires Valid() && Complete()
      modifies this
      ensures Valid() && !inData && Pending() == []
      ensures |msg.data| == old(hdr).size && old(Pending()) == EncodeHeader(old(hdr)) + msg.data
      ensures Deliver(params, old(hdr), msg.data) == if reject then [] else [msg]
    {
      assert |vRecv| == hdr.size && vRecv[..nDataPos] == vRecv;
      msg := NetMessage(CString(hdr.command), vRecv);
      var valid := IsCommandValid(hdr.command);
      reject := params.checksum(hasher) != hdr.checksum || !valid;
      Reset();
    }
  }

  /** A whole header is there, and the receiver does not accept it. */
  predicate BadHeader(params: Params, bytes: seq<Byte>) {
    |bytes| >= HEADER_SIZE && !HeaderOk(params, DecodeHeader(bytes[..HEADER_SIZE]))
  }

  class CNode {
    const deserializer: V1TransportDeserializer
    var vRecvMsg: seq<NetMessage>
    var nRecvBytes: nat

    ghost predicate Valid()
      reads this, deserializer
    {
      deserializer.Valid() && !deserializer.Complete()
    }

    constructor (params: Params)
      ensures Valid() && fresh(deserializer) && deserializer.params == params
      ensures vRecvMsg == [] && nRecvBytes == 0 && deserializer.Pending() == []
    {
      deserializer := new V1TransportDeserializer(params);
      vRecvMsg := [];
      nRecvBytes := 0;
    }

    /** Queues exactly the messages in the pending bytes and the new ones, and keeps what is left. */
    method ReceiveMsgBytes(msgBytes: seq<Byte>) returns (ok: bool, complete: bool)
      requires Valid()
      modifies this, deserializer
      ensures Valid() && nRecvBytes == old(nRecvBytes) + |msgBytes|
      ensures var p := Parse(deserializer.params, old(deserializer.Pending()) + msgBytes);
              && (ok <==> !p.failed) && vRecvMsg == old(vRecvMsg) + p.messages && (complete <==> p.messages != [])
              && deserializer.Pending() == p.rest
    {
      nRecvBytes := nRecvBytes + |msgBytes|;
      ghost var got;
      ok, complete, got := ReceiveLoop(msgBytes);
      assert deserializer.Pending() + [] == deserializer.Pending();
      deserializer.PendingParses();
    }

    method ReceiveLoop(msgBytes: seq<Byte>) returns (ok: bool, complete: bool, ghost got: seq<NetMessage>)
      requires Valid()
      modifies this`vRecvMsg, deserializer
      ensures Valid() && vRecvMsg == old(vRecvMsg) + got && (complete <==> got != [])
      ensures old(ToCome(true, msgBytes)) == Prepend(got, ToCome(ok, []))
      ensures !ok ==> deserializer.Pending() == []
    {
      hide Parse;
      got := [];
      ghost var todo := ToCome(true, msgBytes);
      complete := false;
      var rest := msgBytes;
      ok := true;
      while |rest| > 0 && ok
        invariant Valid() && vRecvMsg == old(vRecvMsg) + got && (complete <==> got != [])
        invariant old(ToCome(true, msgBytes)) == Prepend(got, todo) && todo == ToCome(ok, rest)
        invariant !ok ==> deserializer.Pending() == []
        decreases ok, |rest|
      {
        var arrived;
        ghost var d;
        ok, arrived, rest, d := ReceiveOne(rest);
        complete := complete || arrived;
        todo := ToCome(ok, rest);
        PrependTwice(got, d, todo);
        assert old(vRecvMsg) + got + d == old(vRecvMsg) + (got + d);
        got := got + d;
      }
    }

    /** What the bytes pending and the bytes not yet read hold. */
    ghost function ToCome(ok: bool, rest: seq<Byte>): Parsed
      requires Valid()
      reads this, deserializer
    {
      if ok then Parse(deserializer.params, deserializer.Pending() + rest) else Parsed([], [], true)
    }

    /** One round of the receiving loop: some bytes of one frame, and the message if it is complete. */
    method ReceiveOne(msgBytes: seq<Byte>) returns (ok: bool, arrived: bool, rest: seq<Byte>, ghost d: seq<NetMessage>)
      requires Valid() && msgBytes != []
      modifies this`vRecvMsg, deserializer
      ensures Valid() && vRecvMsg == old(vRecvMsg) + d && (arrived <==> d != [])
      ensures ok ==> |rest| < |msgBytes|
      ensures !ok ==> d == [] && deserializer.Pending() == []
      ensures old(ToCome(true, msgBytes)) == Prepend(d, ToCome(ok, rest))
    {
      ghost var params := deserializer.params;
      var handled;
      handled, rest := deserializer.Read(msgBytes);
      ok := handled >= 0;
      d := [];
      arrived := false;
      if ok && deserializer.Complete() {
        ghost var h := deserializer.hdr;
        var msg, reject := deserializer.GetMessage();
        ParseFrame(params, h, msg.data, rest);
        d := Deliver(params, h, msg.data);
        assert deserializer.Pending() + rest == rest;
        if !reject {
          vRecvMsg := vRecvMsg + [msg];
          arrived := true;
        }
      }
    }
  }

  // ---------------------------------------------------------------- any way of cutting the stream

  function Flatten(chunks: seq<seq<Byte>>): seq<Byte> {
    if chunks == [] then [] else Flatten(chunks[..|chunks| - 1]) + chunks[|chunks| - 1]
  }

  /** Feeds chunks until one of them fails, as the socket thread does. */
  method ReceiveAll(params: Params, chunks: seq<seq<Byte>>) returns (messages: seq<NetMessage>, ok: bool)
    ensures messages == Parse(params, Flatten(chunks)).messages
    ensures ok <==> !Parse(params, Flatten(chunks)).failed
  {
    var node := new CNode(params);
    ok := true;
    for i := 0 to |chunks|
      invariant node.Valid() && fresh(node) && fresh(node.deserializer) && node.deserializer.params == params
      invariant var p := Parse(params, Flatten(chunks[..i]));
                (ok <==> !p.failed) && node.vRecvMsg == p.messages && (ok ==> node.deserializer.Pending() == p.rest)
    {
      assert chunks[..i + 1][..i] == chunks[..i];
      ParseAppend(params, Flatten(chunks[..i]), chunks[i]);
      if ok {
        var complete;
        ok, complete := node.ReceiveMsgBytes(chunks[i]);
      }
    }
    assert chunks[..|chunks|] == chunks;
    messages := node.vRecvMsg;
  }

  // ---------------------------------------------------------------- sending

  /** The header of a message: its type is copied up to the first zero into a zeroed field. */
  method PrepareForTransport(params: Params, m: NetMessage) returns (header: seq<Byte>)
    requires |CString(m.msgType)| <= COMMAND_SIZE && |m.data| < 0x1_0000_0000
    ensures header == EncodeHeader(HeaderOf(params, m))
  {
    var command: seq<Byte> := Zeros(COMMAND_SIZE);
    var i := 0;
    CStringHasNoZero(m.msgType);
    while i < COMMAND_SIZE && i < |m.msgType| && m.msgType[i] != 0
      invariant 0 <= i <= |CString(m.msgType)|
      invariant command == CString(m.msgType)[..i] + Zeros(COMMAND_SIZE - i)
    {
      command := command[i := m.msgType[i]];
      i := i + 1;
    }
    assert i == |m.msgType| || m.msgType[i] == 0;
    header := EncodeHeader(Header(params.messageStart, command, |m.data|, params.checksum(m.data)));
  }

  /** The result of a send of n bytes: -1 asks to try again later, less than that is an error. */
  function Answer(script: seq<int>, n: nat): (r: int)
    ensures r <= n
  {
    if script == [] then -1 else if script[0] <= n then script[0] else n
  }

  function Later(script: seq<int>): seq<int> {
    if script == [] then [] else script[1..]
  }

  /** A socket that takes as many bytes as its script says, or reports an error. */
  class Socket {
    var script: seq<int>
    var wire: seq<Byte>

    constructor (script: seq<int>)
      ensures wire == []
    {
      this.script := script;
      wire := [];
    }

    method Send(data: seq<Byte>) returns (nBytes: int)
      modifies this
      ensures nBytes == Answer(old(script), |data|) && script == Later(old(script))
      ensures wire == old(wire) + data[..if nBytes > 0 then nBytes else 0]
    {
      nBytes := Answer(script, |data|);
      script := Later(script);
      if nBytes > 0 {
        wire := wire + data[..nBytes];
      }
    }
  }

  function TotalSize(buffers: seq<seq<Byte>>): nat {
    if buffers == [] then 0 else |buffers[0]| + TotalSize(buffers[1..])
  }

  function Joined(buffers: seq<seq<Byte>>): seq<Byte> {
    if buffers == [] then [] else buffers[0] + Joined(buffers[1..])
  }

  lemma {:induction false} PushBack(buffers: seq<seq<Byte>>, b: seq<Byte>)
    ensures TotalSize(buffers + [b]) == TotalSize(buffers) + |b|
    ensures Joined(buffers + [b]) == Joined(buffers) + b
  {
    if buffers == [] {
      assert [b][1..] == [];
    } else {
      assert (buffers + [b])[1..] == buffers[1..] + [b];
      PushBack(buffers[1..], b);
      assert buffers[0] + (Joined(buffers[1..]) + b) == buffers[0] + Joined(buffers[1..]) + b;
    }
  }

  /** The queue from buffer i on, of which the first offset bytes are already on the wire. */
  ghost predicate QueueOk(buffers: seq<seq<Byte>>, offset: nat, size: nat) {
    && (forall i | 0 <= i < |buffers| :: buffers[i] != [])
    && (if buffers == [] then offset == 0 else offset < |buffers[0]|)
    && size == TotalSize(buffers)
  }

  ghost function Unsent(buffers: seq<seq<Byte>>, offset: nat): seq<Byte>
    requires if buffers == [] then offset == 0 else offset <= |buffers[0]|
  {
    Joined(buffers)[offset..]
  }

  /** Part of the first buffer goes out, or the last of it. */
  lemma SentPart(buffers: seq<seq<Byte>>, offset: nat, n: nat, size: nat)
    requires buffers != [] && QueueOk(buffers, offset, size) && 0 < n && offset + n <= |buffers[0]|
    ensures Unsent(buffers, offset) == buffers[0][offset..][..n] + Unsent(buffers, offset + n)
    ensures offset + n < |buffers[0]| ==> QueueOk(buffers, offset + n, size)
    ensures offset + n == |buffers[0]| ==>
              && size >= |buffers[0]| && QueueOk(buffers[1..], 0, size - |buffers[0]|)
              && Unsent(buffers, offset + n) == Unsent(buffers[1..], 0)
  {
  }

  /** A non-empty buffer goes to the back. */
  lemma PushedBack(buffers: seq<seq<Byte>>, offset: nat, size: nat, b: seq<Byte>)
    requires QueueOk(buffers, offset, size) && b != []
    ensures QueueOk(buffers + [b], offset, size + |b|)
    ensures Unsent(buffers + [b], offset) == Unsent(buffers, offset) + b
  {
    PushBack(buffers, b);
    if buffers != [] {
      assert offset <= |Joined(buffers)|;
    }
  }

  lemma FramePushed(buffers: seq<seq<Byte>>, offset: nat, size: nat, header: seq<Byte>, data: seq<Byte>, wire: seq<Byte>)
    requires QueueOk(buffers, offset, size) && header != []
    ensures var queue := if data == [] then buffers + [header] else buffers + [header] + [data];
            && QueueOk(queue, offset, size + (|data| + |header|))
            && wire + Unsent(queue, offset) == wire + Unsent(buffers, offset) + (header + data)
  {
    var rest := Unsent(buffers, offset);
    PushedBack(buffers, offset, size, header);
    if data != [] {
      PushedBack(buffers + [header], offset, size + |header|, data);
      assert wire + (rest + header + data) == wire + rest + (header + data);
    } else {
      assert wire + (rest + header) == wire + rest + (header + data);
    }
  }

  datatype Transmitted = Transmitted(bytes: nat, connected: bool)

  ghost function Plus(n: nat, t: Transmitted): Transmitted {
    t.(bytes := n + t.bytes)
  }

  /** What a socket takes of a queue: whole buffers, until it takes less than was offered. */
  ghost function Transmit(connected: bool, buffers: seq<seq<Byte>>, offset: nat, script: seq<int>): Transmitted {
    if !connected || buffers == [] || |buffers[0]| <= offset then Transmitted(0, connected)
    else
      var n := Answer(script, |buffers[0]| - offset);
      if n <= 0 then Transmitted(0, n >= -1)
      else if offset + n < |buffers[0]| then Transmitted(n, true)
      else Plus(n, Transmit(true, buffers[1..], 0, Later(script)))
  }

  /** A socket that takes each buffer whole leaves nothing. */
  lemma {:induction false} WillingSocketDrains(buffers: seq<seq<Byte>>, offset: nat, size: nat, script: seq<int>)
    requires QueueOk(buffers, offset, size)
    requires |buffers| <= |script| && forall i | 0 <= i < |buffers| :: |buffers[i]| <= script[i]
    ensures Transmit(true, buffers, offset, script) == Transmitted(|Unsent(buffers, offset)|, true)
    decreases |buffers|
  {
    if buffers != [] {
      SentPart(buffers, offset, |buffers[0]| - offset, size);
      WillingSocketDrains(buffers[1..], 0, size - |buffers[0]|, script[1..]);
    }
  }

  ghost function Queued(header: seq<Byte>, data: seq<Byte>): seq<seq<Byte>> {
    if data == [] then [header] else [header, data]
  }

  class SendQueue {
    const nSendBufferMaxSize: nat
    const socket: Socket
    var connected: bool
    var vSendMsg: seq<seq<Byte>>
    var nSendSize: nat
    var nSendOffset: nat
    var nSendBytes: nat
    var fPauseSend: bool
    ghost var pushed: seq<Byte>

    /** Nothing pushed is lost, repeated or reordered, and the counters agree with the queue
        from buffer `it` on: the buffers before it are already on the wire. */
    ghost predicate SentUpTo(it: nat)
      reads this, socket
    {
      && it <= |vSendMsg| && QueueOk(vSendMsg[it..], nSendOffset, nSendSize)
      && (fPauseSend <==> nSendSize > nSendBufferMaxSize)
      && nSendBytes == |socket.wire|
      && socket.wire + Unsent(vSendMsg[it..], nSendOffset) == pushed
    }

    ghost predicate Valid()
      reads this, socket
    {
      SentUpTo(0)
    }

    constructor (nSendBufferMaxSize: nat, script: seq<int>)
      ensures Valid() && fresh(socket) && pushed == [] && connected
    {
      this.nSendBufferMaxSize := nSendBufferMaxSize;
      socket := new Socket(script);
      connected := true;
      vSendMsg := [];
      nSendSize, nSendOffset, nSendBytes := 0, 0, 0;
      fPauseSend := false;
      pushed := [];
    }

    /** Sends from the front of the queue until the socket takes no more. */
    method SocketSendData() returns (nSentSize: nat)
      requires Valid()
      modifies this, socket
      ensures Valid() && pushed == old(pushed) && nSendBytes == old(nSendBytes) + nSentSize
      ensures Transmitted(nSentSize, connected) == old(Transmit(connected, vSendMsg, nSendOffset, socket.script))
    {
      assert vSendMsg[0..] == vSendMsg;
      var it := 0;
      var blocked := false;
      nSentSize := 0;
      while it < |vSendMsg| && !blocked
        invariant SentUpTo(it) && vSendMsg == old(vSendMsg) && pushed == old(pushed)
        invariant nSendBytes == old(nSendBytes) + nSentSize
        invariant old(Transmit(connected, vSendMsg, nSendOffset, socket.script))
                  == if blocked then Transmitted(nSentSize, connected)
                     else Plus(nSentSize, Transmit(connected, vSendMsg[it..], nSendOffset, socket.script))
        decreases |vSendMsg| - it, !blocked
      {
        var sent;
        sent, blocked := SendFront(it);
        nSentSize := nSentSize + sent;
        if !blocked {
          it := it + 1;
        }
      }
      if it == |vSendMsg| {
        assert nSendOffset == 0;
        assert nSendSize == 0;
      }
      vSendMsg := vSendMsg[it..];
      assert vSendMsg[0..] == vSendMsg;
    }

    /** One round of the sending loop; not blocked means that the whole buffer has gone out. */
    method SendFront(it: nat) returns (sent: nat, blocked: bool)
      requires it < |vSendMsg| && SentUpTo(it)
      modifies this, socket
      ensures vSendMsg == old(vSendMsg) && pushed == old(pushed)
      ensures it < |vSendMsg| && SentUpTo(if blocked then it else it + 1)
      ensures nSendBytes == old(nSendBytes) + sent
      ensures old(Transmit(connected, vSendMsg[it..], nSendOffset, socket.script))
              == if blocked then Transmitted(sent, connected)
                 else Plus(sent, Transmit(connected, vSendMsg[it + 1..], nSendOffset, socket.script))
    {
      hide Joined, TotalSize;
      assert vSendMsg[it..][1..] == vSendMsg[it + 1..];
      sent, blocked := 0, true;
      var data := vSendMsg[it];
      assert |data| > nSendOffset;
      if connected {
        var nBytes := socket.Send(data[nSendOffset..]);
        if nBytes > 0 {
          SentPart(vSendMsg[it..], nSendOffset, nBytes, nSendSize);
          sent := nBytes;
          nSendBytes := nSendBytes + nBytes;
          nSendOffset := nSendOffset + nBytes;
          if nSendOffset == |data| {
            nSendOffset := 0;
            nSendSize := nSendSize - |data|;
            fPauseSend := nSendSize > nSendBufferMaxSize;
            blocked := false;
          }
        } else if nBytes < -1 {
          connected := false;
        }
      }
    }

    /** Appends the frame of a message to what was pushed, and sends at once if nothing was waiting. */
    method PushMessage(params: Params, m: NetMessage)
      requires Valid() && |CString(m.msgType)| <= COMMAND_SIZE && |m.data| < 0x1_0000_0000
      modifies this, socket
      ensures Valid() && pushed == old(pushed) + Frame(params, m)
      ensures var queue := Queued(EncodeHeader(HeaderOf(params, m)), m.data);
              if old(vSendMsg) == [] then
                Transmitted(nSendBytes, connected)
                == Plus(old(nSendBytes), Transmit(old(connected), queue, 0, old(socket.script)))
              else
                vSendMsg == old(vSendMsg) + queue && nSendBytes == old(nSendBytes) && connected == old(connected)
    {
      var header := PrepareForTransport(params, m);
      var optimisticSend := vSendMsg == [];
      Enqueue(header, m.data);
      if optimisticSend {
        var sent := SocketSendData();
      }
    }

    method Enqueue(header: seq<Byte>, data: seq<Byte>)
      requires Valid() && header != []
      modifies this
      ensures Valid() && pushed == old(pushed) + (header + data) && vSendMsg == old(vSendMsg) + Queued(header, data)
      ensures connected == old(connected) && nSendBytes == old(nSendBytes) && nSendOffset == old(nSendOffset)
    {
      hide Joined, TotalSize;
      assert vSendMsg[0..] == vSendMsg;
      FramePushed(vSendMsg, nSendOffset, nSendSize, header, data, socket.wire);
      nSendSize := nSendSize + (|data| + |header|);
      if nSendSize > nSendBufferMaxSize {
        fPauseSend := true;
      }
      vSendMsg := vSendMsg + [header];
      if |data| > 0 {
        vSendMsg := vSendMsg + [data];
      }
      assert vSendMsg[0..] == vSendMsg;
      pushed := pushed + (header + data);
    }
  }

  // ---------------------------------------------------------------- from end to end

  datatype Event = Push(m: NetMessage) | SocketReady

  ghost function PushedMessages(events: seq<Event>): seq<NetMessage> {
    if events == [] then [] else
      var last := events[|events| - 1];
      PushedMessages(events[..|events| - 1]) + if last.Push? then [last.m] else []
  }

  lemma {:induction false} StreamAppend(params: Params, ms: seq<NetMessage>, m: NetMessage)
    requires AllSendable(ms) && Sendable(m)
    ensures AllSendable(ms + [m])
    ensures CString(m.msgType) == m.msgType && Stream(params, ms + [m]) == Stream(params, ms) + Frame(params, m)
  {
    PrintableIsCString(m.msgType);
    if ms == [] {
      assert (ms + [m])[1..] == [] && Stream(params, []) == [];
      assert Stream(params, ms + [m]) == Frame(params, m) + [];
    } else {
      PrintableIsCString(ms[0].msgType);
      assert (ms + [m])[1..] == ms[1..] + [m];
      StreamAppend(params, ms[1..], m);
      assert Frame(params, ms[0]) + (Stream(params, ms[1..]) + Frame(params, m))
             == Frame(params, ms[0]) + Stream(params, ms[1..]) + Frame(params, m);
    }
  }

  /** Any interleaving of pushes and of sockets taking part of the data. */
  method RunSender(params: Params, limit: nat, script: seq<int>, events: seq<Event>) returns (sender: SendQueue)
    requires AllSendable(PushedMessages(events))
    ensures sender.Valid() && sender.pushed == Stream(params, PushedMessages(events))
  {
    hide Stream, Joined, Frame;
    sender := new SendQueue(limit, script);
    assert Stream(params, PushedMessages([])) == [] by { EmptyStream(params); }
    assert events[..0] == [];
    for i := 0 to |events|
      invariant sender.Valid() && fresh(sender) && fresh(sender.socket)
      invariant AllSendable(PushedMessages(events[..i])) && sender.pushed == Stream(params, PushedMessages(events[..i]))
    {
      PushedSoFar(events, i);
      if events[i].Push? {
        StreamAppend(params, PushedMessages(events[..i]), events[i].m);
        sender.PushMessage(params, events[i].m);
      } else {
        var n := sender.SocketSendData();
      }
    }
    assert events[..|events|] == events;
  }

  lemma EmptyStream(params: Params)
    ensures AllSendable(PushedMessages([])) && Stream(params, PushedMessages([])) == []
  {
  }

  /** Whatever the pushes, the behaviour of the socket and the cuts on the way, the receiver gets
      the first of the sent messages, unchanged and in order, and all of them once the queue is empty. */
  method Conversation(params: Params, limit: nat, script: seq<int>, events: seq<Event>, cut: seq<Byte> -> seq<seq<Byte>>)
    returns (received: seq<NetMessage>, ok: bool, drained: bool)
    requires AllSendable(PushedMessages(events)) && forall wire :: Flatten(cut(wire)) == wire
    ensures ok && received <= PushedMessages(events)
    ensures drained ==> received == PushedMessages(events)
  {
    hide Parse, Stream;
    var sender := RunSender(params, limit, script, events);
    var wire := sender.socket.wire;
    PartialStream(params, PushedMessages(events), wire);
    StreamRoundTrip(params, PushedMessages(events));
    received, ok := ReceiveAll(params, cut(wire));
    drained := sender.vSendMsg == [];
    assert drained ==> wire + [] == wire;
  }

  lemma {:induction false} PushedSoFar(events: seq<Event>, i: nat)
    requires i < |events| && AllSendable(PushedMessages(events))
    ensures var before := PushedMessages(events[..i]);
            PushedMessages(events[..i + 1]) == if events[i].Push? then before + [events[i].m] else before
    ensures AllSendable(PushedMessages(events[..i + 1])) && (events[i].Push? ==> Sendable(events[i].m))
    decreases |events|
  {
    var n := |events| - 1;
    assert events[..i + 1][..i] == events[..i];
    if i < n {
      assert events[..n][..i + 1] == events[..i + 1] && events[..n][..i] == events[..i];
      assert PushedMessages(events[..n]) <= PushedMessages(events);
      PushedSoFar(events[..n], i);
    } else {
      assert events[..i + 1] == events;
      var all := PushedMessages(events);
      assert events[i].Push? ==> all[|all| - 1] == events[i].m;
    }
  }
}

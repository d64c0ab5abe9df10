/** Messages on a byte stream: sendMessage and receiveMessage of src/Client.cpp, and how they fit the
    unframed messages of src/Server.cpp. */
module Framing {
  import opened Bytes
  import Protocol

  const MAX_MESSAGE: nat := 10 * 1024 * 1024

  // ---------------------------------------------------------------------------------------------
  // Frames
  // ---------------------------------------------------------------------------------------------

  datatype Message = Message(kind: bv8, payload: seq<bv8>)

  function Body(m: Message): seq<bv8> {
    [m.kind] + m.payload
  }

  function Bodies(ms: seq<Message>): (r: seq<seq<bv8>>)
    ensures |r| == |ms|
  {
    seq(|ms|, i requires 0 <= i < |ms| => Body(ms[i]))
  }

  /** The length is a uint32_t: larger sizes are cut down. */
  function Frame(m: Message): (r: seq<bv8>)
    ensures |r| == 5 + |m.payload|
  {
    BigEndian(Trunc32(|Body(m)|)) + Body(m)
  }

  /** A frame byte by byte: the size with the high byte first, the type, the payload. */
  lemma FrameBytes(m: Message)
    ensures var f := Frame(m);
            && NatOf(f[0]) * 0x100_0000 + NatOf(f[1]) * 0x1_0000 + NatOf(f[2]) * 0x100 + NatOf(f[3])
               == (1 + |m.payload|) % TWO_32
            && f[4] == m.kind && f[5..] == m.payload
  {
    hide BigEndian, NatOf;
    BigEndianPlaces(Trunc32(|Body(m)|));
  }

  function Frames(ms: seq<Message>): seq<bv8> {
    if ms == [] then [] else Frame(ms[0]) + Frames(ms[1..])
  }

  /** The same without lengths, as the server writes messages. */
  function Unframed(ms: seq<Message>): seq<bv8> {
    Concat(Bodies(ms))
  }

  function Concat(parts: seq<seq<bv8>>): seq<bv8> {
    if parts == [] then [] else parts[0] + Concat(parts[1..])
  }

  lemma {:induction false} ConcatPush(parts: seq<seq<bv8>>, part: seq<bv8>)
    ensures Concat(parts + [part]) == Concat(parts) + part
  {
    if parts == [] {
      assert [part][1..] == [] && parts + [part] == [part];
    } else {
      assert (parts + [part])[1..] == parts[1..] + [part];
      ConcatPush(parts[1..], part);
    }
  }

  predicate Fits(m: Message) {
    |Body(m)| <= MAX_MESSAGE
  }

  /** What one receiveMessage makes of the bytes that arrive before the stream ends or fails: the message,
      or None when it throws, and the bytes it did not consume. */
  datatype Receipt = Receipt(message: Option<seq<bv8>>, rest: seq<bv8>)

  function Received(stream: seq<bv8>): (r: Receipt)
    ensures |r.rest| <= |stream| && (r.message.Some? ==> |r.rest| < |stream|)
  {
    if |stream| < 4 then Receipt(None, [])
    else
      var length := FromBigEndian(stream[..4]);
      if length > MAX_MESSAGE then Receipt(None, stream[4..])
      else if |stream| < 4 + length then Receipt(None, [])
      else Receipt(Some(stream[4..4 + length]), stream[4 + length..])
  }

  /** The messages of successive receiveMessage calls up to the first that throws, and the bytes that
      were unread before that call. */
  datatype Reception = Reception(messages: seq<seq<bv8>>, unread: seq<bv8>)

  function ReceivedAll(stream: seq<bv8>): Reception
    decreases |stream|
  {
    match Received(stream)
    case Receipt(None, _) => Reception([], stream)
    case Receipt(Some(m), rest) =>
      var later := ReceivedAll(rest);
      Reception([m] + later.messages, later.unread)
  }

  lemma ReceivedCases(stream: seq<bv8>)
    ensures |stream| < 4 ==> Received(stream) == Receipt(None, [])
    ensures |stream| >= 4 ==>
      var length, body := FromBigEndian(stream[..4]), stream[4..];
      && (length > MAX_MESSAGE ==> Received(stream) == Receipt(None, body))
      && (length <= MAX_MESSAGE && |body| < length ==> Received(stream) == Receipt(None, []))
      && (length <= MAX_MESSAGE && |body| >= length ==>
            Received(stream) == Receipt(Some(body[..length]), body[length..]))
  {
    hide FromBigEndian;
    if |stream| >= 4 {
      var length, body := FromBigEndian(stream[..4]), stream[4..];
      if |body| >= length {
        assert body[..length] == stream[4..4 + length] && body[length..] == stream[4 + length..];
      }
    }
  }

  function Min(a: nat, b: nat): nat {
    if a < b then a else b
  }

  lemma FrameParts(kind: bv8, payload: seq<bv8>)
    ensures Frame(Message(kind, payload)) == BigEndian(Trunc32(|[kind] + payload|)) + ([kind] + payload)
  {
  }

  lemma PrefixGrows(base: seq<bv8>, bytes: seq<bv8>, n: nat, k: nat)
    requires n + k <= |bytes|
    ensures base + bytes[..n] + bytes[n..][..k] == base + bytes[..n + k]
  {
    assert bytes[..n + k] == bytes[..n] + bytes[n..][..k];
  }

  // ---------------------------------------------------------------------------------------------
  // The implementation
  // ---------------------------------------------------------------------------------------------

  /** One end of a TCP connection. outgoing: the bytes the system has accepted; room: how many more it
      will accept before a send fails; incoming: the bytes that will arrive before a receive fails. How many
      of these one send or recv moves is arbitrary. */
  class Connection {
    var connected: bool
    var outgoing: seq<bv8>
    var room: nat
    var incoming: seq<bv8>

    constructor (capacity: nat, arriving: seq<bv8>)
      ensures connected && outgoing == [] && room == capacity && incoming == arriving
    {
      connected, outgoing, room, incoming := true, [], capacity, arriving;
    }

    /** send: fails, or accepts between one byte and all of them. */
    method Send(bytes: seq<bv8>) returns (sent: int)
      requires bytes != []
      modifies this`outgoing, this`room
      ensures sent <= |bytes| && sent <= old(room) && (sent <= 0 <==> old(room) == 0)
      ensures sent <= 0 ==> outgoing == old(outgoing) && room == old(room)
      ensures sent > 0 ==> outgoing == old(outgoing) + bytes[..sent] && room == old(room) - sent
    {
      if room == 0 {
        return -1;
      }
      sent :| 1 <= sent <= |bytes| && sent <= room;
      outgoing, room := outgoing + bytes[..sent], room - sent;
    }

    /** One send whose piece is given: how many bytes it accepts if there is room for them. */
    method SendPiece(bytes: seq<bv8>, piece: nat) returns (sent: nat)
      modifies this`outgoing, this`room
      ensures sent == Min(Min(piece, |bytes|), old(room))
      ensures outgoing == old(outgoing) + bytes[..sent] && room == old(room) - sent
    {
      sent := Min(Min(piece, |bytes|), room);
      outgoing, room := outgoing + bytes[..sent], room - sent;
    }

    /** recv: between one byte and as many as asked for, or nothing once the stream has ended. */
    method Recv(count: nat) returns (bytes: seq<bv8>)
      requires count > 0
      modifies this`incoming
      ensures bytes == [] <==> old(incoming) == []
      ensures |bytes| <= count && old(incoming) == bytes + incoming
    {
      if incoming == [] {
        return [];
      }
      var n: nat :| 1 <= n <= count && n <= |incoming|;
      bytes := incoming[..n];
      incoming := incoming[n..];
    }

    /** recv with MSG_WAITALL: fewer bytes than asked for only at the end of the stream. */
    method RecvAll(count: nat) returns (bytes: seq<bv8>)
      modifies this`incoming
      ensures old(incoming) == bytes + incoming
      ensures |bytes| == if |old(incoming)| < count then |old(incoming)| else count
    {
      var n := if |incoming| < count then |incoming| else count;
      bytes := incoming[..n];
      incoming := incoming[n..];
    }

    /** piece: how many bytes the send of the length accepts. However the sends of the body are split, the
        whole frame is on the stream if that send was not split and there is room; else as much of the frame
        as was accepted, and an exception. */
    method SendMessage(kind: bv8, payload: seq<bv8>, piece: nat) returns (ok: bool)
      modifies this`outgoing, this`room
      ensures !connected ==> !ok && outgoing == old(outgoing)
      ensures connected ==>
        var frame := Frame(Message(kind, payload));
        && (ok <==> piece >= 4 && |frame| <= old(room))
        && outgoing == old(outgoing) + (if ok then frame else frame[..if piece < 4 then Min(piece, old(room)) else old(room)])
    {
      hide Frame, BigEndian;
      if !connected {
        return false;
      }
      ghost var frame := Frame(Message(kind, payload));
      var message := [kind] + payload;
      FrameParts(kind, payload);
      var length := BigEndian(Trunc32(|message|));
      var pieceSent := SendPiece(length, piece);
      assert length[..pieceSent] == frame[..pieceSent];
      if pieceSent != 4 {
        return false;
      }
      var totalSent := 0;
      while totalSent < |message|
        invariant 0 <= totalSent <= |message|
        invariant outgoing == old(outgoing) + frame[..4 + totalSent] && room == old(room) - 4 - totalSent
      {
        assert message[totalSent..] == frame[4 + totalSent..];
        var sent := Send(message[totalSent..]);
        if sent <= 0 {
          return false;
        }
        PrefixGrows(old(outgoing), frame, 4 + totalSent, sent);
        totalSent := totalSent + sent;
      }
      assert frame[..|frame|] == frame;
      ok := true;
    }

    /** Whatever the fragmentation: the message and the remaining bytes depend on the stream alone. */
    method ReceiveMessage() returns (r: Option<seq<bv8>>)
      modifies this`incoming
      ensures !connected ==> r == None && incoming == old(incoming)
      ensures connected ==> Receipt(r, incoming) == Received(old(incoming))
    {
      hide FromBigEndian, Received;
      if !connected {
        return None;
      }
      ghost var stream := incoming;
      ReceivedCases(stream);
      var header := RecvAll(4);
      if |header| != 4 {
        return None;
      }
      ghost var body := incoming;
      assert stream[..4] == header && stream[4..] == body;
      var length := FromBigEndian(header);
      if length > MAX_MESSAGE {
        return None;
      }
      var message: seq<bv8> := [];
      while |message| < length
        invariant |message| <= length && body == message + incoming
        decreases length - |message|
      {
        var bytes := Recv(length - |message|);
        if bytes == [] {
          return None;
        }
        message := message + bytes;
      }
      assert body[..length] == message && body[length..] == incoming;
      r := Some(message);
    }
  }

  // ---------------------------------------------------------------------------------------------
  // Frames arrive
  // ---------------------------------------------------------------------------------------------

  /** A framed message is received as it was sent, and nothing of what follows is touched, if and only if
      it is at most 10 MiB with its type byte. */
  lemma FrameReceived(m: Message, more: seq<bv8>)
    ensures Received(Frame(m) + more) == Receipt(Some(Body(m)), more) <==> Fits(m)
  {
    hide BigEndian, FromBigEndian;
    var stream, length := Frame(m) + more, Trunc32(|Body(m)|);
    FromToBigEndian(length);
    assert stream[..4] == BigEndian(length) && stream[4..] == Body(m) + more;
    if Fits(m) {
      assert stream[4..4 + length] == Body(m) && stream[4 + length..] == more;
    }
  }

  /** Exactly what receiveMessage takes for a message: a length of at most 10 MiB, and that many bytes. */
  lemma ReceivedExactly(stream: seq<bv8>, message: seq<bv8>, rest: seq<bv8>)
    ensures Received(stream) == Receipt(Some(message), rest) <==>
            |message| <= 10_485_760 && stream == BigEndian(|message|) + message + rest
  {
    hide BigEndian, FromBigEndian;
    if Received(stream) == Receipt(Some(message), rest) {
      ToFromBigEndian(stream[..4]);
      assert stream == stream[..4] + stream[4..4 + |message|] + stream[4 + |message|..];
    }
    if |message| <= MAX_MESSAGE && stream == BigEndian(|message|) + message + rest {
      FromToBigEndian(|message|);
      assert stream[..4] == BigEndian(|message|);
      assert stream[4..4 + |message|] == message && stream[4 + |message|..] == rest;
    }
  }

  lemma BodiesCons(m: Message, ms: seq<Message>)
    ensures Bodies([m] + ms) == [Body(m)] + Bodies(ms)
  {
  }

  /** How many whole frames there are in that many bytes. */
  function WholeFrames(ms: seq<Message>, length: nat): (n: nat)
    ensures n <= |ms| && |Frames(ms[..n])| <= length
    ensures n < |ms| ==> length < |Frames(ms[..n + 1])|
  {
    hide Frame;
    if ms == [] then 0
    else
      assert ms[..1][1..] == [];
      if length < |Frame(ms[0])| then 0
      else
        var k := WholeFrames(ms[1..], length - |Frame(ms[0])|);
        assert ms[..k + 1][1..] == ms[1..][..k];
        assert k + 1 < |ms| ==> ms[..k + 2][1..] == ms[1..][..k + 1];
        k + 1
  }

  lemma CutFrame(m: Message, cut: seq<bv8>)
    requires Fits(m) && cut < Frame(m)
    ensures Received(cut).message == None
  {
    hide BigEndian, FromBigEndian;
    if |cut| >= 4 {
      FromToBigEndian(|Body(m)|);
      assert cut[..4] == Frame(m)[..4] == BigEndian(|Body(m)|);
    }
  }

  /** However many messages are sent and wherever the stream is cut off, the receiver gets exactly the
      messages whose frames arrived whole, in order and unchanged, and then an exception. */
  lemma {:induction false} CutStream(ms: seq<Message>, cut: seq<bv8>)
    requires (forall m | m in ms :: Fits(m)) && cut <= Frames(ms)
    ensures var n := WholeFrames(ms, |cut|);
            ReceivedAll(cut) == Reception(Bodies(ms[..n]), cut[|Frames(ms[..n])|..])
    decreases |ms|
  {
    hide Frame, Body, Received, Fits;
    if ms == [] {
      NothingReceived();
    } else if |cut| < |Frame(ms[0])| {
      assert ms[0] in ms;
      CutFrame(ms[0], cut);
    } else {
      var m, more := ms[0], cut[|Frame(ms[0])|..];
      assert m in ms;
      assert cut == Frame(m) + more;
      FrameReceived(m, more);
      CutStream(ms[1..], more);
      var n := WholeFrames(ms[1..], |more|);
      assert ms[..n + 1] == [m] + ms[1..][..n];
      BodiesCons(m, ms[1..][..n]);
      assert ms[..n + 1][1..] == ms[1..][..n];
    }
  }

  lemma NothingReceived()
    ensures Received([]).message == None
  {
  }

  /** A stream of messages of at most 10 MiB each is received as exactly these messages, in order, and
      nothing is left over. */
  lemma StreamReceived(ms: seq<Message>)
    requires forall m | m in ms :: Fits(m)
    ensures ReceivedAll(Frames(ms)) == Reception(Bodies(ms), [])
  {
    hide *;
    CutStream(ms, Frames(ms));
    var n := WholeFrames(ms, |Frames(ms)|);
    if n < |ms| {
      FramesGrow(ms, n + 1);
      assert false;
    }
    assert ms[..|ms|] == ms;
  }

  lemma {:induction false} FramesGrow(ms: seq<Message>, n: nat)
    requires n <= |ms|
    ensures |Frames(ms[..n])| <= |Frames(ms)|
  {
    if n > 0 {
      assert ms[..n][1..] == ms[1..][..n - 1];
      FramesGrow(ms[1..], n - 1);
    }
  }
}

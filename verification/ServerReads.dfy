/** The unframed side of the stream: what src/Server.cpp writes and reads, against src/Client.cpp. */
module ServerReads {
  import opened Bytes
  import opened Framing
  import Protocol

  // ---------------------------------------------------------------------------------------------
  // The client reads what the server wrote
  // ---------------------------------------------------------------------------------------------

  lemma TopByte(b: seq<bv8>)
    requires |b| == 4
    ensures FromBigEndian(b) / 0x100_0000 == NatOf(b[0])
  {
    hide NatOf;
  }

  lemma ByteZero(b: bv8)
    ensures NatOf(b) == 0 <==> b == 0
  {
    ByteOfNat(b);
    NatOfByte(0);
  }

  /** A stream that does not begin with a zero byte: the four bytes that receiveMessage takes for the length
      are missing or exceed its limit, and it throws. */
  lemma UnframedRefused(stream: seq<bv8>)
    requires stream != [] ==> stream[0] != 0
    ensures Received(stream).message == None
  {
    hide FromBigEndian, NatOf;
    if |stream| >= 4 {
      TopByte(stream[..4]);
      ByteZero(stream[0]);
    }
  }

  /** Server::sendMessage writes type and payload without a length, and no message type is zero:
      receiveMessage throws on every server reply, whatever follows it. */
  lemma UnframedReplyRefused(reply: Message, more: seq<bv8>)
    requires reply.kind != 0
    ensures Received(Body(reply) + more).message == None
  {
    UnframedRefused(Body(reply) + more);
  }

  // ---------------------------------------------------------------------------------------------
  // The server reads what the client wrote
  // ---------------------------------------------------------------------------------------------

  /** Of the server, for reading sockets and files. */
  const BUFFER_SIZE: nat := 8192

  /** One recv of the server's non-blocking socket. */
  datatype Read = Data(bytes: seq<bv8>) | WouldBlock | Closed | Failure

  ghost predicate Possible(recvs: seq<Read>) {
    forall r | r in recvs :: r.Data? ==> 0 < |r.bytes| <= BUFFER_SIZE
  }

  /** The block that one call makes of these reads: all bytes up to the first read that does not fill the
      buffer; None if the connection is closed or fails before that. */
  function Block(recvs: seq<Read>): Option<seq<bv8>> {
    if recvs == [] then Some([])
    else
      match recvs[0]
      case WouldBlock => Some([])
      case Closed => None
      case Failure => None
      case Data(bytes) =>
        if |bytes| < BUFFER_SIZE then Some(bytes)
        else
          match Block(recvs[1..])
          case None => None
          case Some(rest) => Some(bytes + rest)
  }

  /** Server::receiveMessage; after the given reads there is nothing more to read. */
  method ReceiveBlock(recvs: seq<Read>) returns (r: Option<seq<bv8>>)
    ensures r == Block(recvs)
  {
    var message: seq<bv8> := [];
    var i := 0;
    assert recvs[0..] == recvs;
    assert Block(recvs).Some? ==> [] + Block(recvs).value == Block(recvs).value;
    while i < |recvs|
      invariant i <= |recvs|
      invariant Block(recvs) == match Block(recvs[i..]) case None => None case Some(rest) => Some(message + rest)
    {
      assert recvs[i..][1..] == recvs[i + 1..];
      match recvs[i] {
        case Data(bytes) =>
          ghost var before := message;
          message := message + bytes;
          if |bytes| < BUFFER_SIZE {
            return Some(message);
          }
          assert forall rest: seq<bv8> :: before + (bytes + rest) == message + rest;
        case WouldBlock =>
          assert message + [] == message;
          return Some(message);
        case Closed =>
          return None;
        case Failure =>
          return None;
      }
      i := i + 1;
    }
    assert message + [] == message;
    r := Some(message);
  }

  function Datas(full: seq<seq<bv8>>): (r: seq<Read>)
    ensures |r| == |full|
  {
    seq(|full|, i requires 0 <= i < |full| => Data(full[i]))
  }

  /** What ends a block: nothing more to read and a read that would block leave the bytes so far, a short read
      adds its own, and the end or failure of the connection loses them all. */
  function Ended(before: seq<bv8>, ends: seq<Read>): Option<seq<bv8>> {
    if ends == [] then Some(before)
    else
      match ends[0]
      case Data(bytes) => Some(before + bytes)
      case WouldBlock => Some(before)
      case Closed => None
      case Failure => None
  }

  /** The block of any reads: first some that fill the buffer, all of which it contains, then one that does not
      and ends it, then others that it does not reach. */
  lemma {:induction false} BlockExactly(full: seq<seq<bv8>>, ends: seq<Read>)
    requires forall bytes | bytes in full :: |bytes| == 8192
    requires ends != [] && ends[0].Data? ==> |ends[0].bytes| < 8192
    ensures Block(Datas(full) + ends) == Ended(Concat(full), ends)
    decreases |full|
  {
    if full == [] {
      assert Datas(full) + ends == ends;
      assert forall bytes: seq<bv8> :: [] + bytes == bytes;
    } else {
      assert (Datas(full) + ends)[1..] == Datas(full[1..]) + ends;
      BlockExactly(full[1..], ends);
      var a, b := full[0], Concat(full[1..]);
      assert forall bytes: seq<bv8> :: a + (b + bytes) == a + b + bytes;
    }
  }

  /** Any bytes can come out as one block, so a stream can reach the server split in any way. */
  lemma {:induction false} AnyBlock(block: seq<bv8>) returns (recvs: seq<Read>)
    ensures Possible(recvs) && Block(recvs) == Some(block)
    decreases |block|
  {
    if block == [] {
      recvs := [];
    } else if |block| < BUFFER_SIZE {
      recvs := [Data(block)];
    } else {
      var rest := AnyBlock(block[BUFFER_SIZE..]);
      recvs := [Data(block[..BUFFER_SIZE])] + rest;
      assert recvs[1..] == rest;
      assert block[..BUFFER_SIZE] + block[BUFFER_SIZE..] == block;
    }
  }

  /** Where Server::processMessage sends a block. */
  datatype Route = Ignored | PeerList | FileList(peer: seq<bv8>) | File(name: seq<bv8>) | Unknown(kind: bv8)

  function Routed(message: seq<bv8>): Route {
    if message == [] then Ignored
    else if message[0] == Protocol.PEER_LIST_REQUEST then PeerList
    else if message[0] == Protocol.FILE_LIST_REQUEST then FileList(message[1..])
    else if message[0] == Protocol.FILE_REQUEST then File(message[1..])
    else Unknown(message[0])
  }

  /** What the server does with a stream that reaches it in these blocks. */
  function Routes(blocks: seq<seq<bv8>>): (r: seq<Route>)
    ensures |r| == |blocks|
  {
    seq(|blocks|, i requires 0 <= i < |blocks| => Routed(blocks[i]))
  }

  /** The bytes, cut into blocks anywhere. */
  ghost predicate Splits(blocks: seq<seq<bv8>>, bytes: seq<bv8>) {
    Concat(blocks) == bytes && [] !in blocks
  }

  function Offset(blocks: seq<seq<bv8>>, i: nat): nat
    requires i <= |blocks|
  {
    |Concat(blocks[..i])|
  }

  lemma {:induction false} BlockAt(blocks: seq<seq<bv8>>, i: nat)
    requires i < |blocks|
    ensures var o, bytes := Offset(blocks, i), Concat(blocks);
            o + |blocks[i]| == Offset(blocks, i + 1) <= |bytes| && bytes[o..o + |blocks[i]|] == blocks[i]
  {
    if i == 0 {
      assert blocks[..0] == [] && blocks[..1] == [blocks[0]] && [blocks[0]][1..] == [];
    } else {
      var rest := blocks[1..];
      BlockAt(rest, i - 1);
      assert blocks[..i][1..] == rest[..i - 1] && blocks[..i + 1][1..] == rest[..i];
      var o := Offset(rest, i - 1);
      assert Concat(blocks)[|blocks[0]|..] == Concat(rest);
      assert Concat(blocks)[|blocks[0]| + o..|blocks[0]| + o + |blocks[i]|] == Concat(rest)[o..o + |blocks[i]|];
    }
  }

  /** A request reads the same from an offset within its length as it does after it. */
  predicate Echoes(m: Message, offset: nat) {
    offset < 4 && Frame(m)[offset..offset + |Body(m)|] == Body(m)
  }

  /** The handler for a file request and for a file list request, with the whole payload. */
  predicate Serves(route: Route, m: Message) {
    match route
    case File(name) => m.kind == 5 && name == m.payload
    case FileList(peer) => m.kind == 3 && peer == m.payload
    case _ => false
  }

  /** Its handler serves the request in one of the blocks. */
  ghost predicate Served(m: Message, blocks: seq<seq<bv8>>) {
    exists i :: 0 <= i < |blocks| && Serves(Routed(blocks[i]), m)
  }

  /** When a file request reaches the file handler with its name, and a file list request the file list handler
      with its peer, for every split of the frame: if and only if some block is as long as the request and
      begins where the length ends, or at an echo. */
  lemma RequestServed(m: Message, blocks: seq<seq<bv8>>)
    requires m.kind == Protocol.FILE_LIST_REQUEST || m.kind == Protocol.FILE_REQUEST
    requires Splits(blocks, Frame(m))
    ensures Served(m, blocks) <==>
            exists i :: 0 <= i < |blocks| && |blocks[i]| == |Body(m)|
                        && (Offset(blocks, i) == 4 || Echoes(m, Offset(blocks, i)))
  {
    hide Concat, BigEndian;
    var body, frame := Body(m), Frame(m);
    assert frame[4..4 + |body|] == body;
    forall i | 0 <= i < |blocks|
      ensures Serves(Routed(blocks[i]), m) <==>
              |blocks[i]| == |body| && (Offset(blocks, i) == 4 || Echoes(m, Offset(blocks, i)))
    {
      BlockAt(blocks, i);
      OnlyBodyServes(m, blocks[i]);
    }
  }

  lemma OnlyBodyServes(m: Message, block: seq<bv8>)
    requires m.kind == 3 || m.kind == 5
    ensures Serves(Routed(block), m) <==> block == Body(m)
  {
    if Serves(Routed(block), m) {
      assert block == [block[0]] + block[1..];
    }
    if block == Body(m) {
      assert block[1..] == m.payload;
    }
  }

  /** An echo needs the request's type among the bytes of its length. */
  lemma EchoNeedsKind(m: Message, offset: nat)
    ensures Echoes(m, offset) ==> m.kind in Frame(m)[..4]
  {
    if Echoes(m, offset) {
      assert Frame(m)[..4][offset] == Frame(m)[offset..offset + |Body(m)|][0] == m.kind;
    }
  }

  lemma NotLast(blocks: seq<seq<bv8>>, bytes: seq<bv8>, i: nat)
    requires Splits(blocks, bytes) && i + 1 < |blocks|
    ensures Offset(blocks, i) + |blocks[i]| < |bytes|
  {
    hide Concat;
    BlockAt(blocks, i);
    BlockAt(blocks, i + 1);
    assert blocks[i + 1] in blocks;
  }

  /** Without that, the request is served as it was sent exactly when the last block is the request: the
      server has read the length apart from it, and all of it at once. */
  lemma RequestServedLast(m: Message, blocks: seq<seq<bv8>>)
    requires m.kind == Protocol.FILE_LIST_REQUEST || m.kind == Protocol.FILE_REQUEST
    requires Splits(blocks, Frame(m)) && m.kind !in Frame(m)[..4]
    ensures blocks != []
    ensures Served(m, blocks) <==> blocks[|blocks| - 1] == Body(m)
  {
    hide BigEndian, Served;
    var n := |blocks| - 1;
    RequestServed(m, blocks);
    BlockAt(blocks, n);
    assert blocks[..n + 1] == blocks;
    hide Concat;
    if i :| 0 <= i < |blocks| && |blocks[i]| == |Body(m)|
            && (Offset(blocks, i) == 4 || Echoes(m, Offset(blocks, i))) {
      EchoNeedsKind(m, Offset(blocks, i));
      if i < n {
        NotLast(blocks, Frame(m), i);
        assert false;
      }
    }
    assert Frame(m)[4..] == Body(m);
  }

  /** An echo does happen: this request is served from within its own length. */
  lemma EchoedRequest()
    ensures var m := Message(Protocol.FILE_REQUEST, [5, 5, 5, 5]); var blocks := [[0, 0, 0], [5, 5, 5, 5, 5], [5]];
            && Splits(blocks, Frame(m)) && Offset(blocks, 1) == 3 && Echoes(m, 3)
            && Routes(blocks) == [Unknown(0), File([5, 5, 5, 5]), File([])] && blocks[|blocks| - 1] != Body(m)
  {
    var m := Message(Protocol.FILE_REQUEST, [5, 5, 5, 5]);
    var zeros: seq<bv8>, fives: seq<bv8>, last: seq<bv8> := [0, 0, 0], [5, 5, 5, 5, 5], [5];
    var blocks := [zeros, fives, last];
    EchoedFrame();
    EchoedRoutes();
    ConcatThree(zeros, fives, last);
    ConcatOne(zeros);
    assert blocks[..1] == [zeros];
    hide Concat, Routes, Routed, Frame;
  }

  lemma EchoedRoutes()
    ensures Routes([[0, 0, 0], [5, 5, 5, 5, 5], [5]]) == [Unknown(0), File([5, 5, 5, 5]), File([])]
  {
    var fives: seq<bv8>, last: seq<bv8> := [5, 5, 5, 5, 5], [5];
    assert fives[1..] == [5, 5, 5, 5] && last[1..] == [];
  }

  lemma EchoedFrame()
    ensures Frame(Message(Protocol.FILE_REQUEST, [5, 5, 5, 5])) == [0, 0, 0, 5, 5, 5, 5, 5, 5]
  {
    SmallBytes();
    SmallLength(5, 5);
    hide BigEndian, NatOf;
  }

  lemma ConcatOne(a: seq<bv8>)
    ensures Concat([a]) == a
  {
    assert [a][1..] == [] && a + [] == a;
  }

  lemma ConcatThree(a: seq<bv8>, b: seq<bv8>, c: seq<bv8>)
    ensures Concat([a, b, c]) == a + b + c
  {
    assert [a, b, c] == [a] + [b] + [c];
    ConcatOne(a);
    ConcatPush([a], b);
    ConcatPush([a] + [b], c);
  }

  lemma SmallLength(n: nat, b: bv8)
    requires n < 256 && NatOf(b) == n
    ensures BigEndian(n) == [0, 0, 0, b]
  {
    ByteZero(0);
    ByteOfNat(b);
    ByteOfNat(0);
    hide ByteOf, NatOf;
    assert n / 256 / 256 / 256 == 0 && n / 256 / 256 % 256 == 0 && n / 256 % 256 == 0 && n % 256 == n;
  }

  /** A peer list request has no payload and its handler reads none: it is served exactly when some block
      begins at its type or at the last byte of its length, which is the same byte. */
  lemma PeerListRequestServed(blocks: seq<seq<bv8>>)
    requires Splits(blocks, Frame(Message(Protocol.PEER_LIST_REQUEST, [])))
    ensures blocks != []
    ensures PeerList in Routes(blocks) <==> |blocks[|blocks| - 1]| <= 2
  {
    var m, n := Message(Protocol.PEER_LIST_REQUEST, []), |blocks| - 1;
    SmallBytes();
    SmallLength(1, 1);
    assert Frame(m) == [0, 0, 0, 1, 1];
    hide Concat, BigEndian;
    forall i | 0 <= i < |blocks|
      ensures Routes(blocks)[i] == PeerList <==> Offset(blocks, i) >= 3
      ensures Offset(blocks, i) + |blocks[i]| <= 5 && (i < n ==> Offset(blocks, i) <= 4)
    {
      BlockAt(blocks, i);
      assert blocks[i] in blocks;
      assert blocks[i][0] == Frame(m)[Offset(blocks, i)];
    }
    Last(blocks, Frame(m));
    if PeerList in Routes(blocks) {
      var i :| 0 <= i < |blocks| && Routes(blocks)[i] == PeerList;
      if i < n {
        Increasing(blocks, i, n);
      }
    }
    if Offset(blocks, n) >= 3 {
      assert Routes(blocks)[n] == PeerList;
    }
  }

  lemma Last(blocks: seq<seq<bv8>>, bytes: seq<bv8>)
    requires Splits(blocks, bytes) && bytes != []
    ensures blocks != [] && Offset(blocks, |blocks| - 1) + |blocks[|blocks| - 1]| == |bytes|
  {
    BlockAt(blocks, |blocks| - 1);
    assert blocks[..|blocks|] == blocks;
  }

  lemma {:induction false} Increasing(blocks: seq<seq<bv8>>, i: nat, j: nat)
    requires i <= j < |blocks|
    ensures Offset(blocks, i) <= Offset(blocks, j)
    decreases j - i
  {
    hide Concat;
    if i < j {
      BlockAt(blocks, i);
      Increasing(blocks, i + 1, j);
    }
  }

  lemma SmallBytes()
    ensures NatOf(1) == 1 && NatOf(3) == 3 && NatOf(5) == 5
  {
  }

  /** Read in one block, a frame is taken for the type that the top byte of its length happens to be; within
      10 MiB that is zero, and the frame is not served. */
  lemma OneBlock(m: Message)
    ensures Splits([Frame(m)], Frame(m)) && Routes([Frame(m)]) == [Routed(Frame(m))]
    ensures Routed(Frame(m)).Unknown? <==> Trunc32(1 + |m.payload|) / 0x100_0000 !in {1, 3, 5}
    ensures Fits(m) ==> Routed(Frame(m)) == Unknown(0)
  {
    hide BigEndian, FromBigEndian, NatOf;
    var length := Trunc32(1 + |m.payload|);
    ConcatOne(Frame(m));
    FromToBigEndian(length);
    TopByte(BigEndian(length));
    var b := BigEndian(length)[0];
    ByteOfNat(b);
    ByteOfNat(1);
    ByteOfNat(3);
    ByteOfNat(5);
    ByteZero(b);
    SmallBytes();
  }

  /** Read as its length and its body, a frame within 10 MiB is served as it was sent, and nothing else is. */
  lemma TwoBlocks(m: Message)
    requires Fits(m)
    ensures var blocks := [Frame(m)[..4], Body(m)];
            && Splits(blocks, Frame(m))
            && Routes(blocks) == [Unknown(0),
                                  if m.kind == 1 then PeerList
                                  else if m.kind == 3 then FileList(m.payload)
                                  else if m.kind == 5 then File(m.payload)
                                  else Unknown(m.kind)]
  {
    hide BigEndian;
    var a, b := Frame(m)[..4], Body(m);
    ConcatPush([a], b);
    ConcatOne(a);
    assert [a] + [b] == [a, b];
    OneBlock(m);
    assert a[0] == Frame(m)[0];
    assert Frame(m) == a + b;
    assert b[1..] == m.payload;
  }
}

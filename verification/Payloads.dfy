/** The payload codecs of src/Protocol.cpp: every create function with its parser. Each parser is
    specified by the serializer it inverts (Codec.Decoded). */
module Payloads {
  import opened Bytes
  import opened Codec
  import opened Files
  import Protocol

  // ---------------------------------------------------------------------------------------------
  // Integers and strings
  // ---------------------------------------------------------------------------------------------

  function EncodeUint32(v: int): (r: seq<bv8>)
    ensures |r| == 4
  {
    BigEndian(Trunc32(v))
  }

  function EncodeBytes(b: seq<bv8>): (r: seq<bv8>)
    ensures |r| == 4 + |b|
  {
    EncodeUint32(|b|) + b
  }

  function EncodeString(s: string): (r: seq<bv8>)
    ensures |r| == 4 + |s|
  {
    EncodeBytes(ToBytes(s))
  }

  predicate IsUint32(v: int) {
    0 <= v < TWO_32
  }

  predicate IsShort(s: string) {
    IsText(s) && |s| < TWO_32
  }

  method SerializeUint32(buffer: seq<bv8>, value: int) returns (r: seq<bv8>)
    ensures r == buffer + EncodeUint32(value)
  {
    r := buffer + BigEndian(Trunc32(value));
  }

  method SerializeString(buffer: seq<bv8>, str: string) returns (r: seq<bv8>)
    ensures r == buffer + EncodeString(str)
  {
    r := SerializeUint32(buffer, |str|);
    r := r + ToBytes(str);
  }

  method DeserializeUint32(buffer: seq<bv8>, offset: nat) returns (ok: bool, next: nat, value: nat)
    requires offset <= |buffer|
    ensures ok <==> offset + 4 <= |buffer|
    ensures ok ==> next == offset + 4 && IsUint32(value) && buffer[offset..next] == EncodeUint32(value)
    ensures !ok ==> next == offset
  {
    if offset + 4 > |buffer| {
      return false, offset, 0;
    }
    value := FromBigEndian(buffer[offset..offset + 4]);
    ToFromBigEndian(buffer[offset..offset + 4]);
    return true, offset + 4, value;
  }

  lemma BytesThere(tail: seq<bv8>, b: seq<bv8>)
    requires |b| < TWO_32 && EncodeBytes(b) <= tail
    ensures tail[..4] == BigEndian(|b|) && 4 + |b| <= |tail|
  {
    hide BigEndian;
    PrefixOfTail(EncodeUint32(|b|), b, tail);
  }

  lemma BytesHere(tail: seq<bv8>, length: nat)
    requires |tail| >= 4 && IsUint32(length) && tail[..4] == BigEndian(length)
    ensures (exists b: seq<bv8> :: |b| < TWO_32 && EncodeBytes(b) <= tail) <==> 4 + length <= |tail|
    ensures 4 + length <= |tail| ==> EncodeBytes(tail[4..4 + length]) == tail[..4 + length]
  {
    hide BigEndian;
    if 4 + length <= |tail| {
      var b := tail[4..4 + length];
      assert tail[..4] + b == tail[..4 + length];
      assert EncodeBytes(b) == tail[..4 + length];
    }
    hide EncodeBytes;
    forall b: seq<bv8> | |b| < TWO_32 && EncodeBytes(b) <= tail
      ensures |b| == length && 4 + length <= |tail|
    {
      BytesThere(tail, b);
      BigEndianInjective(|b|, length);
    }
  }

  method DeserializeBytes(buffer: seq<bv8>, offset: nat) returns (ok: bool, next: nat, bytes: seq<bv8>)
    requires offset <= |buffer|
    ensures ok <==> exists b: seq<bv8> :: |b| < TWO_32 && EncodeBytes(b) <= buffer[offset..]
    ensures ok ==> offset <= next <= |buffer| && |bytes| < TWO_32 && buffer[offset..next] == EncodeBytes(bytes)
  {
    hide BigEndian, EncodeBytes;
    bytes := [];
    var length;
    ok, next, length := DeserializeUint32(buffer, offset);
    if !ok {
      return;
    }
    ghost var tail := buffer[offset..];
    assert tail[..4] == buffer[offset..next];
    BytesHere(tail, length);
    if next + length > |buffer| {
      ok := false;
      return;
    }
    bytes := buffer[next..next + length];
    assert bytes == tail[4..4 + length];
    assert buffer[offset..next + length] == tail[..4 + length];
    next := next + length;
  }

  method DeserializeString(buffer: seq<bv8>, offset: nat) returns (ok: bool, next: nat, str: string)
    requires offset <= |buffer|
    ensures ok <==> exists s :: IsShort(s) && EncodeString(s) <= buffer[offset..]
    ensures ok ==> offset <= next <= |buffer| && IsShort(str) && buffer[offset..next] == EncodeString(str)
  {
    str := "";
    var bytes;
    ok, next, bytes := DeserializeBytes(buffer, offset);
    if ok {
      str := FromBytes(bytes);
      ToFromBytes(bytes);
      assert EncodeString(str) <= buffer[offset..] by {
        assert buffer[offset..][..next - offset] == buffer[offset..next];
      }
    } else {
      forall s | IsShort(s)
        ensures !(EncodeString(s) <= buffer[offset..])
      {
        assert EncodeString(s) == EncodeBytes(ToBytes(s));
      }
    }
  }

  lemma BytesFirst(x: seq<bv8>, r: seq<bv8>, y: seq<bv8>, s: seq<bv8>)
    requires |x| < TWO_32 && |y| < TWO_32 && EncodeBytes(x) + r <= EncodeBytes(y) + s
    ensures x == y && r <= s
  {
    hide BigEndian;
    assert EncodeBytes(x) + r == EncodeUint32(|x|) + (x + r);
    assert EncodeBytes(y) + s == EncodeUint32(|y|) + (y + s);
    hide EncodeBytes;
    Uint32First(|x|, x + r, |y|, y + s);
    PrefixOfTail(x, r, y + s);
    assert (y + s)[..|x|] == y && (y + s)[|x|..] == s;
  }

  lemma StringFirst(x: string, r: seq<bv8>, y: string, s: seq<bv8>)
    requires IsShort(x) && IsShort(y) && EncodeString(x) + r <= EncodeString(y) + s
    ensures x == y && r <= s
  {
    BytesFirst(ToBytes(x), r, ToBytes(y), s);
    FromToBytes(x);
    FromToBytes(y);
  }

  lemma Uint32First(x: nat, r: seq<bv8>, y: nat, s: seq<bv8>)
    requires IsUint32(x) && IsUint32(y) && EncodeUint32(x) + r <= EncodeUint32(y) + s
    ensures x == y && r <= s
  {
    hide BigEndian;
    PrefixOfTail(EncodeUint32(x), r, EncodeUint32(y) + s);
    assert (EncodeUint32(y) + s)[..4] == EncodeUint32(y) && (EncodeUint32(y) + s)[4..] == s;
    BigEndianInjective(x, y);
  }

  lemma StringPrefixFree()
    ensures PrefixFree(EncodeString, IsShort)
  {
    forall x, y | IsShort(x) && IsShort(y) && EncodeString(x) <= EncodeString(y)
      ensures x == y
    {
      assert EncodeString(x) + [] <= EncodeString(y) + [];
      StringFirst(x, [], y, []);
    }
  }

  // ---------------------------------------------------------------------------------------------
  // Peer lists
  // ---------------------------------------------------------------------------------------------

  function EncodePeers(peers: seq<string>): seq<bv8> {
    EncodeList(EncodeString, peers)
  }

  ghost predicate ValidPeers(peers: seq<string>) {
    ValidList(IsShort, peers)
  }

  lemma PeersPrefixFree()
    ensures PrefixFree(EncodePeers, ValidPeers)
  {
    StringPrefixFree();
    ListPrefixFree(EncodeString, IsShort);
    forall x, y | ValidPeers(x) && ValidPeers(y) && EncodePeers(x) <= EncodePeers(y)
      ensures x == y
    {
      var enc, valid := (xs: seq<string>) => EncodeList(EncodeString, xs), (xs: seq<string>) => ValidList(IsShort, xs);
      assert valid(x) && valid(y) && enc(x) <= enc(y);
    }
  }

  method CreatePeerListResponse(peers: seq<string>) returns (message: seq<bv8>)
    ensures message == Protocol.Message(Protocol.PEER_LIST_RESPONSE, EncodePeers(peers))
  {
    hide EncodeString, BigEndian;
    var payload := SerializeUint32([], |peers|);
    for i := 0 to |peers|
      invariant payload == EncodeUint32(|peers|) + EncodeAll(EncodeString, peers[..i])
    {
      assert peers[..i + 1] == peers[..i] + [peers[i]];
      EncodeAllPush(EncodeString, peers[..i], peers[i]);
      payload := SerializeString(payload, peers[i]);
    }
    assert peers[..|peers|] == peers;
    message := Protocol.CreateMessage(Protocol.PEER_LIST_RESPONSE, payload);
  }

  method ParsePeerListResponse(payload: seq<bv8>) returns (ok: bool, peers: seq<string>)
    ensures ok == Decoded(EncodePeers, ValidPeers, payload).Some?
    ensures ok ==> Decoded(EncodePeers, ValidPeers, payload) == Some(peers)
  {
    hide BigEndian, FromBigEndian, ToBytes;
    StringPrefixFree();
    peers := [];
    var offset, count;
    ok, offset, count := DeserializeUint32(payload, 0);
    if !ok {
      forall v | ValidPeers(v)
        ensures !(EncodePeers(v) <= payload)
      {
        assert |EncodePeers(v)| >= 4;
      }
      return;
    }
    assert payload[4..4] == [];
    var i := 0;
    while i < count
      invariant i == |peers| <= count && 4 <= offset <= |payload|
      invariant forall x | x in peers :: IsShort(x)
      invariant payload[4..offset] == EncodeAll(EncodeString, peers)
    {
      var read, next, peer := DeserializeString(payload, offset);
      if !read {
        NoListHere(EncodeString, IsShort, payload, count, peers, offset);
        assert forall v | ValidPeers(v) :: !(EncodePeers(v) <= payload);
        return false, peers;
      }
      EncodeAllPush(EncodeString, peers, peer);
      assert payload[4..next] == payload[4..offset] + payload[offset..next];
      peers, offset := peers + [peer], next;
      i := i + 1;
    }
    ListHere(EncodeString, IsShort, payload, peers, offset);
    PeersPrefixFree();
    assert ValidPeers(peers) && EncodePeers(peers) <= payload;
    DecodedIs(EncodePeers, ValidPeers, peers, payload);
  }

  // ---------------------------------------------------------------------------------------------
  // File lists
  // ---------------------------------------------------------------------------------------------

  function EncodeFile(f: FileInfo): seq<bv8> {
    EncodeString(f.filename) + (EncodeUint32(f.size) + (EncodeString(f.hash) + EncodeUint32(f.lastModified)))
  }

  /** What the receiver can know of a file: no path, and size and time modulo 2^32. */
  function OnWire(f: FileInfo): FileInfo {
    f.(filepath := "", size := Trunc32(f.size), lastModified := Trunc32(f.lastModified))
  }

  predicate ValidFile(f: FileInfo) {
    IsShort(f.filename) && IsShort(f.hash) && f == OnWire(f)
  }

  lemma FileUnique(x: FileInfo, y: FileInfo)
    requires ValidFile(x) && ValidFile(y) && EncodeFile(x) <= EncodeFile(y)
    ensures x == y
  {
    hide EncodeString, EncodeUint32, IsShort;
    var x3, y3 := EncodeUint32(x.lastModified), EncodeUint32(y.lastModified);
    var x2, y2 := EncodeString(x.hash) + x3, EncodeString(y.hash) + y3;
    var x1, y1 := EncodeUint32(x.size) + x2, EncodeUint32(y.size) + y2;
    assert EncodeFile(x) == EncodeString(x.filename) + x1;
    assert EncodeFile(y) == EncodeString(y.filename) + y1;
    hide EncodeFile;
    StringFirst(x.filename, x1, y.filename, y1);
    Uint32First(x.size, x2, y.size, y2);
    StringFirst(x.hash, x3, y.hash, y3);
    assert x3 + [] == x3 && y3 + [] == y3;
    Uint32First(x.lastModified, [], y.lastModified, []);
  }

  lemma FilePrefixFree()
    ensures PrefixFree(EncodeFile, ValidFile)
  {
    forall x, y | ValidFile(x) && ValidFile(y) && EncodeFile(x) <= EncodeFile(y)
      ensures x == y
    {
      FileUnique(x, y);
    }
  }

  function EncodeFiles(files: seq<FileInfo>): seq<bv8> {
    EncodeList(EncodeFile, files)
  }

  ghost predicate ValidFiles(files: seq<FileInfo>) {
    ValidList(ValidFile, files)
  }

  lemma FilesPrefixFree()
    ensures PrefixFree(EncodeFiles, ValidFiles)
  {
    FilePrefixFree();
    ListPrefixFree(EncodeFile, ValidFile);
    forall x, y | ValidFiles(x) && ValidFiles(y) && EncodeFiles(x) <= EncodeFiles(y)
      ensures x == y
    {
      var enc, valid := (xs: seq<FileInfo>) => EncodeList(EncodeFile, xs), (xs: seq<FileInfo>) => ValidList(ValidFile, xs);
      assert valid(x) && valid(y) && enc(x) <= enc(y);
    }
  }

  method CreateFileListResponse(files: seq<FileInfo>) returns (message: seq<bv8>)
    ensures message == Protocol.Message(Protocol.FILE_LIST_RESPONSE, EncodeFiles(files))
  {
    hide EncodeString, BigEndian;
    var payload := SerializeUint32([], |files|);
    for i := 0 to |files|
      invariant payload == EncodeUint32(|files|) + EncodeAll(EncodeFile, files[..i])
    {
      ghost var before := payload;
      var file := files[i];
      payload := SerializeString(payload, file.filename);
      payload := SerializeUint32(payload, file.size);
      payload := SerializeString(payload, file.hash);
      payload := SerializeUint32(payload, file.lastModified);
      assert payload == before + EncodeFile(file);
      assert files[..i + 1] == files[..i] + [file];
      EncodeAllPush(EncodeFile, files[..i], file);
    }
    assert files[..|files|] == files;
    message := Protocol.CreateMessage(Protocol.FILE_LIST_RESPONSE, payload);
  }

  lemma PeelString(x: string, r: seq<bv8>, buffer: seq<bv8>, offset: nat, next: nat, str: string)
    requires IsShort(x) && IsShort(str) && offset <= next <= |buffer|
    requires buffer[offset..next] == EncodeString(str) && EncodeString(x) + r <= buffer[offset..]
    ensures x == str && r <= buffer[next..]
  {
    hide EncodeString;
    assert buffer[offset..] == buffer[offset..next] + buffer[next..];
    StringFirst(x, r, str, buffer[next..]);
  }

  lemma PeelUint32(x: nat, r: seq<bv8>, buffer: seq<bv8>, offset: nat, next: nat, v: nat)
    requires IsUint32(x) && IsUint32(v) && offset <= next <= |buffer|
    requires buffer[offset..next] == EncodeUint32(v) && EncodeUint32(x) + r <= buffer[offset..]
    ensures x == v && r <= buffer[next..]
  {
    hide EncodeUint32;
    assert buffer[offset..] == buffer[offset..next] + buffer[next..];
    Uint32First(x, r, v, buffer[next..]);
  }

  lemma Joined(buffer: seq<bv8>, a: nat, b: nat, c: nat)
    requires a <= b <= c <= |buffer|
    ensures buffer[a..c] == buffer[a..b] + buffer[b..c]
    ensures buffer[a..b] <= buffer[a..]
  {
    assert buffer[a..][..b - a] == buffer[a..b];
  }

  /** The four reads of one entry in parseFileListResponse. */
  method DeserializeFile(buffer: seq<bv8>, offset: nat) returns (ok: bool, next: nat, file: FileInfo)
    requires offset <= |buffer|
    ensures ok <==> exists f :: ValidFile(f) && EncodeFile(f) <= buffer[offset..]
    ensures ok ==> offset <= next <= |buffer| && ValidFile(file) && buffer[offset..next] == EncodeFile(file)
  {
    hide EncodeString, EncodeUint32, IsShort;
    file, ok, next := FileInfo("", "", 0, "", 0), false, offset;
    var pos1, pos2, pos3 := offset, offset, offset;
    var ok1, ok2, ok3 := false, false, false;
    var filename, size, hash, modified := "", 0, "", 0;
    ok1, pos1, filename := DeserializeString(buffer, offset);
    if ok1 {
      ok2, pos2, size := DeserializeUint32(buffer, pos1);
      if ok2 {
        ok3, pos3, hash := DeserializeString(buffer, pos2);
        if ok3 {
          ok, next, modified := DeserializeUint32(buffer, pos3);
        }
      }
    }
    if ok {
      file := FileInfo(filename, "", size, hash, modified);
      Joined(buffer, offset, pos1, next);
      Joined(buffer, pos1, pos2, next);
      Joined(buffer, pos2, pos3, next);
      Joined(buffer, offset, next, next);
      assert EncodeFile(file) == buffer[offset..next];
      assert ValidFile(file) && EncodeFile(file) <= buffer[offset..];
    }
    forall f | ValidFile(f) && EncodeFile(f) <= buffer[offset..]
      ensures ok
    {
      var r3 := EncodeUint32(f.lastModified);
      var r2 := EncodeString(f.hash) + r3;
      var r1 := EncodeUint32(f.size) + r2;
      PrefixOfTail(EncodeString(f.filename), r1, buffer[offset..]);
      PeelString(f.filename, r1, buffer, offset, pos1, filename);
      PeelUint32(f.size, r2, buffer, pos1, pos2, size);
      PrefixOfTail(EncodeString(f.hash), r3, buffer[pos2..]);
      PeelString(f.hash, r3, buffer, pos2, pos3, hash);
    }
  }

  method ParseFileListResponse(payload: seq<bv8>) returns (ok: bool, files: seq<FileInfo>)
    ensures ok == Decoded(EncodeFiles, ValidFiles, payload).Some?
    ensures ok ==> Decoded(EncodeFiles, ValidFiles, payload) == Some(files)
  {
    hide BigEndian, FromBigEndian, ToBytes, ValidFile, EncodeFile;
    FilePrefixFree();
    files := [];
    var offset, count;
    ok, offset, count := DeserializeUint32(payload, 0);
    if !ok {
      forall v | ValidFiles(v)
        ensures !(EncodeFiles(v) <= payload)
      {
        assert |EncodeFiles(v)| >= 4;
      }
      return;
    }
    assert payload[4..4] == [];
    var i := 0;
    while i < count
      invariant i == |files| <= count && 4 <= offset <= |payload|
      invariant forall x | x in files :: ValidFile(x)
      invariant payload[4..offset] == EncodeAll(EncodeFile, files)
    {
      var read, next, file := DeserializeFile(payload, offset);
      if !read {
        NoListHere(EncodeFile, ValidFile, payload, count, files, offset);
        assert forall v | ValidFiles(v) :: !(EncodeFiles(v) <= payload);
        return false, files;
      }
      EncodeAllPush(EncodeFile, files, file);
      assert payload[4..next] == payload[4..offset] + payload[offset..next];
      files, offset := files + [file], next;
      i := i + 1;
    }
    ListHere(EncodeFile, ValidFile, payload, files, offset);
    FilesPrefixFree();
    assert ValidFiles(files) && EncodeFiles(files) <= payload;
    DecodedIs(EncodeFiles, ValidFiles, files, payload);
  }

  // ---------------------------------------------------------------------------------------------
  // File requests and chunks
  // ---------------------------------------------------------------------------------------------

  datatype Request = Request(filename: string, offset: nat, length: nat)

  function EncodeRequest(r: Request): seq<bv8> {
    EncodeString(r.filename) + (EncodeUint32(r.offset) + EncodeUint32(r.length))
  }

  predicate ValidRequest(r: Request) {
    IsShort(r.filename) && IsUint32(r.offset) && IsUint32(r.length)
  }

  lemma RequestUnique(x: Request, y: Request)
    requires ValidRequest(x) && ValidRequest(y) && EncodeRequest(x) <= EncodeRequest(y)
    ensures x == y
  {
    hide EncodeString, EncodeUint32, IsShort;
    var x2, y2 := EncodeUint32(x.length), EncodeUint32(y.length);
    var x1, y1 := EncodeUint32(x.offset) + x2, EncodeUint32(y.offset) + y2;
    assert EncodeRequest(x) == EncodeString(x.filename) + x1;
    assert EncodeRequest(y) == EncodeString(y.filename) + y1;
    hide EncodeRequest;
    StringFirst(x.filename, x1, y.filename, y1);
    Uint32First(x.offset, x2, y.offset, y2);
    assert x2 + [] == x2 && y2 + [] == y2;
    Uint32First(x.length, [], y.length, []);
  }

  lemma RequestPrefixFree()
    ensures PrefixFree(EncodeRequest, ValidRequest)
  {
    forall x, y | ValidRequest(x) && ValidRequest(y) && EncodeRequest(x) <= EncodeRequest(y)
      ensures x == y
    {
      RequestUnique(x, y);
    }
  }

  method CreateFileRequest(filename: string, offset: nat, length: nat) returns (message: seq<bv8>)
    ensures message == Protocol.Message(Protocol.FILE_REQUEST, EncodeRequest(Request(filename, offset, length)))
  {
    hide EncodeString, EncodeUint32;
    var payload := SerializeString([], filename);
    payload := SerializeUint32(payload, offset);
    payload := SerializeUint32(payload, length);
    assert payload == EncodeRequest(Request(filename, offset, length));
    message := Protocol.CreateMessage(Protocol.FILE_REQUEST, payload);
  }

  method ParseFileRequest(payload: seq<bv8>) returns (ok: bool, filename: string, offset: nat, length: nat)
    ensures ok == Decoded(EncodeRequest, ValidRequest, payload).Some?
    ensures ok ==> Decoded(EncodeRequest, ValidRequest, payload) == Some(Request(filename, offset, length))
  {
    hide EncodeString, EncodeUint32, IsShort;
    offset, length := 0, 0;
    var pos1, pos2, pos3 := 0, 0, 0;
    var ok2 := false;
    assert payload[0..] == payload;
    ok, pos1, filename := DeserializeString(payload, 0);
    if ok {
      ok2, pos2, offset := DeserializeUint32(payload, pos1);
      if ok2 {
        ok, pos3, length := DeserializeUint32(payload, pos2);
      }
    }
    forall r | ValidRequest(r) && EncodeRequest(r) <= payload
      ensures ok && ok2
    {
      var r2 := EncodeUint32(r.length);
      var r1 := EncodeUint32(r.offset) + r2;
      PrefixOfTail(EncodeString(r.filename), r1, payload);
      PeelString(r.filename, r1, payload, 0, pos1, filename);
      PeelUint32(r.offset, r2, payload, pos1, pos2, offset);
    }
    ok := ok && ok2;
    if ok {
      Joined(payload, 0, pos1, pos3);
      Joined(payload, pos1, pos2, pos3);
      assert EncodeRequest(Request(filename, offset, length)) == payload[0..pos3];
      RequestPrefixFree();
      DecodedIs(EncodeRequest, ValidRequest, Request(filename, offset, length), payload);
    }
  }

  datatype Chunk = Chunk(offset: nat, data: seq<bv8>)

  function EncodeChunk(c: Chunk): seq<bv8> {
    EncodeUint32(c.offset) + EncodeBytes(c.data)
  }

  predicate ValidChunk(c: Chunk) {
    IsUint32(c.offset) && |c.data| < TWO_32
  }

  lemma ChunkPrefixFree()
    ensures PrefixFree(EncodeChunk, ValidChunk)
  {
    forall x, y | ValidChunk(x) && ValidChunk(y) && EncodeChunk(x) <= EncodeChunk(y)
      ensures x == y
    {
      hide EncodeBytes, EncodeUint32;
      var x1, y1 := EncodeBytes(x.data), EncodeBytes(y.data);
      Uint32First(x.offset, x1, y.offset, y1);
      assert x1 + [] == x1 && y1 + [] == y1;
      BytesFirst(x.data, [], y.data, []);
    }
  }

  method CreateFileChunk(data: seq<bv8>, offset: nat) returns (message: seq<bv8>)
    ensures message == Protocol.Message(Protocol.FILE_CHUNK, EncodeChunk(Chunk(offset, data)))
  {
    hide BigEndian;
    var payload := SerializeUint32([], offset);
    payload := SerializeUint32(payload, |data|);
    payload := payload + data;
    assert payload == EncodeChunk(Chunk(offset, data));
    message := Protocol.CreateMessage(Protocol.FILE_CHUNK, payload);
  }

  method ParseFileChunk(payload: seq<bv8>) returns (ok: bool, data: seq<bv8>, offset: nat)
    ensures ok == Decoded(EncodeChunk, ValidChunk, payload).Some?
    ensures ok ==> Decoded(EncodeChunk, ValidChunk, payload) == Some(Chunk(offset, data))
  {
    hide EncodeBytes, EncodeUint32;
    data, offset := [], 0;
    var pos, next, size := 0, 0, 0;
    assert payload[0..] == payload;
    ok, pos, offset := DeserializeUint32(payload, 0);
    var ok2 := false;
    if ok {
      // chunk_size, then the bounds check and the copy
      ok2, next, data := DeserializeBytes(payload, pos);
    }
    forall c | ValidChunk(c) && EncodeChunk(c) <= payload
      ensures ok && ok2
    {
      PrefixOfTail(EncodeUint32(c.offset), EncodeBytes(c.data), payload);
      PeelUint32(c.offset, EncodeBytes(c.data), payload, 0, pos, offset);
    }
    ok := ok && ok2;
    if ok {
      Joined(payload, 0, pos, next);
      assert EncodeChunk(Chunk(offset, data)) == payload[0..next];
      ChunkPrefixFree();
      DecodedIs(EncodeChunk, ValidChunk, Chunk(offset, data), payload);
    }
  }

  // ---------------------------------------------------------------------------------------------
  // Payloads byte by byte
  // ---------------------------------------------------------------------------------------------

  lemma Uint32Bytes(v: int)
    ensures PlaceValue(EncodeUint32(v)) == v % TWO_32
  {
    hide BigEndian, PlaceValue;
    BigEndianPlaces(Trunc32(v));
  }

  lemma StringBytes(s: string)
    ensures var e := EncodeString(s);
            |e| == 4 + |s| && PlaceValue(e[0..4]) == |s| % TWO_32 && e[4..] == ToBytes(s)
  {
    hide BigEndian, PlaceValue, ToBytes;
    var e := EncodeString(s);
    assert e == EncodeUint32(|s|) + ToBytes(s);
    assert e[0..4] == EncodeUint32(|s|) && e[4..] == ToBytes(s);
    Uint32Bytes(|s|);
  }

  /** A counted list: the number of elements, then the elements in order. */
  lemma ListBytes<T>(enc: T -> seq<bv8>, xs: seq<T>, ys: seq<T>, x: T)
    ensures var e := EncodeList(enc, xs);
            |e| >= 4 && PlaceValue(e[0..4]) == |xs| % TWO_32 && e[4..] == EncodeAll(enc, xs)
    ensures EncodeAll(enc, xs + [x] + ys) == EncodeAll(enc, xs) + enc(x) + EncodeAll(enc, ys)
  {
    hide BigEndian, PlaceValue;
    var e := EncodeList(enc, xs);
    assert e[0..4] == BigEndian(Trunc32(|xs|)) && e[4..] == EncodeAll(enc, xs);
    BigEndianPlaces(Trunc32(|xs|));
    EncodeAllPush(enc, xs, x);
    EncodeAllAppend(enc, xs + [x], ys);
  }

  /** A file record: name, size, hash, time. */
  lemma FileBytes(f: FileInfo)
    ensures var e := EncodeFile(f); var n := |f.filename|; var h := |f.hash|;
            && |e| == 16 + n + h
            && PlaceValue(e[0..4]) == n % TWO_32 && e[4..4 + n] == ToBytes(f.filename)
            && PlaceValue(e[4 + n..8 + n]) == f.size % TWO_32
            && PlaceValue(e[8 + n..12 + n]) == h % TWO_32 && e[12 + n..12 + n + h] == ToBytes(f.hash)
            && PlaceValue(e[12 + n + h..]) == f.lastModified % TWO_32
  {
    hide PlaceValue, ToBytes, BigEndian;
    var n, h := |f.filename|, |f.hash|;
    var a, b := EncodeUint32(n) + ToBytes(f.filename), EncodeUint32(f.size);
    var c, d := EncodeUint32(h) + ToBytes(f.hash), EncodeUint32(f.lastModified);
    Uint32Bytes(n);
    Uint32Bytes(f.size);
    Uint32Bytes(h);
    Uint32Bytes(f.lastModified);
    hide EncodeUint32;
    var e := EncodeFile(f);
    assert e == a + b + c + d;
    assert e[0..4] == EncodeUint32(n) && e[4..4 + n] == ToBytes(f.filename);
    assert e[4 + n..8 + n] == b;
    assert e[8 + n..12 + n] == EncodeUint32(h) && e[12 + n..12 + n + h] == ToBytes(f.hash);
    assert e[12 + n + h..] == d;
  }

  /** A file request: name, offset, length. */
  lemma RequestBytes(r: Request)
    ensures var e := EncodeRequest(r); var n := |r.filename|;
            && |e| == 12 + n
            && PlaceValue(e[0..4]) == n % TWO_32 && e[4..4 + n] == ToBytes(r.filename)
            && PlaceValue(e[4 + n..8 + n]) == r.offset % TWO_32
            && PlaceValue(e[8 + n..]) == r.length % TWO_32
  {
    hide PlaceValue, ToBytes, BigEndian;
    var n, e := |r.filename|, EncodeRequest(r);
    Uint32Bytes(n);
    Uint32Bytes(r.offset);
    Uint32Bytes(r.length);
    hide EncodeUint32;
    assert e[0..4] == EncodeUint32(n) && e[4..4 + n] == ToBytes(r.filename);
    assert e[4 + n..8 + n] == EncodeUint32(r.offset) && e[8 + n..] == EncodeUint32(r.length);
  }

  /** A chunk: offset, size, data. */
  lemma ChunkBytes(c: Chunk)
    ensures var e := EncodeChunk(c);
            && |e| == 8 + |c.data|
            && PlaceValue(e[0..4]) == c.offset % TWO_32
            && PlaceValue(e[4..8]) == |c.data| % TWO_32 && e[8..] == c.data
  {
    hide PlaceValue, BigEndian;
    var e := EncodeChunk(c);
    Uint32Bytes(c.offset);
    Uint32Bytes(|c.data|);
    hide EncodeUint32;
    assert e[0..4] == EncodeUint32(c.offset) && e[4..8] == EncodeUint32(|c.data|) && e[8..] == c.data;
  }

  /** What arrives of a file record: everything but the path, numbers modulo 2^32. */
  lemma OnWireKeeps(f: FileInfo)
    ensures var g := OnWire(f);
            && g.filename == f.filename && g.hash == f.hash && g.filepath == ""
            && g.size == f.size % TWO_32 && g.lastModified == f.lastModified % TWO_32
  {
  }

  // ---------------------------------------------------------------------------------------------
  // Round trips through envelope and codec
  // ---------------------------------------------------------------------------------------------

  /** A decoder reads from a message what it was created for: the message is accepted only as its own
      type and payload, and the payload decodes to value. */
  ghost predicate Delivers<T(!new)>(message: seq<bv8>, kind: bv8, enc: T -> seq<bv8>, valid: T -> bool, value: T) {
    exists p :: ReadOnlyAs(message, kind, p) && Decoded(enc, valid, p) == Some(value)
  }

  ghost predicate ReadOnlyAs(message: seq<bv8>, kind: bv8, payload: seq<bv8>) {
    forall k, p :: Protocol.Accepts(message, k, p) <==> k == kind && p == payload
  }

  lemma DeliversEncoded<T(!new)>(kind: bv8, enc: T -> seq<bv8>, valid: T -> bool, value: T, payload: seq<bv8>)
    requires PrefixFree(enc, valid) && valid(value) && enc(value) == payload && |payload| < TWO_32
    ensures Delivers(Protocol.Message(kind, payload), kind, enc, valid, value)
  {
    hide Protocol.Accepts, Protocol.Message;
    forall k', p' {
      Protocol.EnvelopeRoundTrip(kind, payload, k', p');
    }
    DecodedIs(enc, valid, value, payload);
  }

  lemma NothingDelivered<T(!new)>(kind: bv8, enc: T -> seq<bv8>, valid: T -> bool, value: T, payload: seq<bv8>)
    requires |payload| >= TWO_32
    ensures !Delivers(Protocol.Message(kind, payload), kind, enc, valid, value)
  {
    hide Protocol.Accepts, Protocol.Message;
    forall p
      ensures !ReadOnlyAs(Protocol.Message(kind, payload), kind, p)
    {
      Protocol.EnvelopeRoundTrip(kind, payload, kind, p);
    }
  }

  lemma {:induction false} EncodeAllSize<T>(enc: T -> seq<bv8>, xs: seq<T>)
    requires forall x | x in xs :: |enc(x)| >= 4
    ensures |EncodeAll(enc, xs)| >= |xs|
    ensures forall x | x in xs :: |EncodeAll(enc, xs)| >= |enc(x)|
    decreases |xs|
  {
    if xs != [] {
      EncodeAllSize(enc, xs[1..]);
      assert xs == [xs[0]] + xs[1..];
    }
  }

  /** A peer list is delivered unchanged if and only if its payload is below 4 GiB. */
  lemma PeerListRoundTrip(peers: seq<string>)
    requires forall s | s in peers :: IsText(s)
    ensures Delivers(Protocol.Message(Protocol.PEER_LIST_RESPONSE, EncodePeers(peers)),
                     Protocol.PEER_LIST_RESPONSE, EncodePeers, ValidPeers, peers)
            <==> |EncodePeers(peers)| < TWO_32
  {
    hide EncodeString, Delivers, Protocol.Message;
    if |EncodePeers(peers)| < TWO_32 {
      EncodeAllSize(EncodeString, peers);
      PeersPrefixFree();
      DeliversEncoded(Protocol.PEER_LIST_RESPONSE, EncodePeers, ValidPeers, peers, EncodePeers(peers));
    } else {
      NothingDelivered(Protocol.PEER_LIST_RESPONSE, EncodePeers, ValidPeers, peers, EncodePeers(peers));
    }
  }

  function AllOnWire(files: seq<FileInfo>): (r: seq<FileInfo>)
    ensures |r| == |files|
  {
    seq(|files|, i requires 0 <= i < |files| => OnWire(files[i]))
  }

  lemma {:induction false} EncodeAllOnWire(files: seq<FileInfo>)
    ensures EncodeAll(EncodeFile, AllOnWire(files)) == EncodeAll(EncodeFile, files)
  {
    hide EncodeString;
    if files != [] {
      assert AllOnWire(files)[1..] == AllOnWire(files[1..]);
      EncodeAllOnWire(files[1..]);
      assert EncodeFile(OnWire(files[0])) == EncodeFile(files[0]);
    }
  }

  lemma AllOnWireValid(files: seq<FileInfo>)
    requires forall f | f in files :: IsText(f.filename) && IsText(f.hash) && |EncodeFile(f)| < TWO_32
    ensures forall f | f in AllOnWire(files) :: ValidFile(f)
  {
    hide EncodeString, IsText;
    forall f | f in AllOnWire(files)
      ensures ValidFile(f)
    {
      var i :| 0 <= i < |files| && f == OnWire(files[i]);
      assert files[i] in files;
    }
  }

  /** A file list is delivered as its on-wire part if and only if its payload is below 4 GiB. */
  lemma FileListRoundTrip(files: seq<FileInfo>)
    requires forall f | f in files :: IsText(f.filename) && IsText(f.hash)
    ensures Delivers(Protocol.Message(Protocol.FILE_LIST_RESPONSE, EncodeFiles(files)),
                     Protocol.FILE_LIST_RESPONSE, EncodeFiles, ValidFiles, AllOnWire(files))
            <==> |EncodeFiles(files)| < TWO_32
  {
    hide EncodeString, Delivers, Protocol.Message;
    if |EncodeFiles(files)| < TWO_32 {
      EncodeAllSize(EncodeFile, files);
      AllOnWireValid(files);
      EncodeAllOnWire(files);
      FilesPrefixFree();
      DeliversEncoded(Protocol.FILE_LIST_RESPONSE, EncodeFiles, ValidFiles, AllOnWire(files), EncodeFiles(files));
    } else {
      NothingDelivered(Protocol.FILE_LIST_RESPONSE, EncodeFiles, ValidFiles, AllOnWire(files), EncodeFiles(files));
    }
  }

  /** A file request is delivered with offset and length modulo 2^32. */
  lemma FileRequestRoundTrip(filename: string, offset: nat, length: nat)
    requires IsText(filename)
    ensures Delivers(Protocol.Message(Protocol.FILE_REQUEST, EncodeRequest(Request(filename, offset, length))),
                     Protocol.FILE_REQUEST, EncodeRequest, ValidRequest,
                     Request(filename, Trunc32(offset), Trunc32(length)))
            <==> |filename| + 12 < TWO_32
  {
    hide EncodeString, Delivers, Protocol.Message;
    var sent, got := Request(filename, offset, length), Request(filename, Trunc32(offset), Trunc32(length));
    assert EncodeRequest(got) == EncodeRequest(sent);
    if |filename| + 12 < TWO_32 {
      RequestPrefixFree();
      DeliversEncoded(Protocol.FILE_REQUEST, EncodeRequest, ValidRequest, got, EncodeRequest(sent));
    } else {
      NothingDelivered(Protocol.FILE_REQUEST, EncodeRequest, ValidRequest, got, EncodeRequest(sent));
    }
  }

  /** A chunk is delivered with its offset modulo 2^32. */
  lemma FileChunkRoundTrip(data: seq<bv8>, offset: nat)
    ensures Delivers(Protocol.Message(Protocol.FILE_CHUNK, EncodeChunk(Chunk(offset, data))),
                     Protocol.FILE_CHUNK, EncodeChunk, ValidChunk, Chunk(Trunc32(offset), data))
            <==> |data| + 8 < TWO_32
  {
    hide EncodeBytes, Delivers, Protocol.Message;
    var sent, got := Chunk(offset, data), Chunk(Trunc32(offset), data);
    assert EncodeChunk(got) == EncodeChunk(sent);
    if |data| + 8 < TWO_32 {
      ChunkPrefixFree();
      DeliversEncoded(Protocol.FILE_CHUNK, EncodeChunk, ValidChunk, got, EncodeChunk(sent));
    } else {
      NothingDelivered(Protocol.FILE_CHUNK, EncodeChunk, ValidChunk, got, EncodeChunk(sent));
    }
  }

  /** All four list and transfer codecs are prefix-free; Codec.PrefixFreeCodec says what follows. */
  lemma CodecsPrefixFree()
    ensures PrefixFree(EncodePeers, ValidPeers) && PrefixFree(EncodeFiles, ValidFiles)
    ensures PrefixFree(EncodeRequest, ValidRequest) && PrefixFree(EncodeChunk, ValidChunk)
  {
    PeersPrefixFree();
    FilesPrefixFree();
    RequestPrefixFree();
    ChunkPrefixFree();
  }
}

/** File transfer: the chunk loop of Server::handleFileRequest against the state machine of
    Client::downloadFile, on whole messages and over framed streams. */
module Transfer {
  import opened Bytes
  import opened Framing
  import Protocol
  import opened ServerReads

  // ---------------------------------------------------------------------------------------------
  // Sending
  // ---------------------------------------------------------------------------------------------

  /** What the server finds for a file name: getFileInfo throws, the file cannot be opened, or its bytes. */
  datatype Source = Missing(what: seq<bv8>) | Unreadable | Opened(content: seq<bv8>)

  function Chunks(content: seq<bv8>): seq<seq<bv8>> {
    if content == [] then []
    else if |content| <= BUFFER_SIZE then [content]
    else [content[..BUFFER_SIZE]] + Chunks(content[BUFFER_SIZE..])
  }

  function ChunkMessages(chunks: seq<seq<bv8>>): (r: seq<Message>)
    ensures |r| == |chunks|
  {
    seq(|chunks|, i requires 0 <= i < |chunks| => Message(Protocol.FILE_CHUNK, chunks[i]))
  }

  function FileReply(name: seq<bv8>, source: Source): seq<Message> {
    match source
    case Missing(what) => [Message(Protocol.ERROR_MESSAGE, what)]
    case Unreadable => [Message(Protocol.ERROR_MESSAGE, name)]
    case Opened(content) => ChunkMessages(Chunks(content)) + [Message(Protocol.FILE_COMPLETE, [])]
  }

  /** std::ifstream::read on a file of the given bytes. */
  class InputFile {
    const content: seq<bv8>
    var position: nat
    var failed: bool
    var gcount: nat

    ghost predicate Valid()
      reads this
    {
      position <= |content| && (failed ==> position == |content|)
    }

    constructor (bytes: seq<bv8>)
      ensures Valid() && content == bytes && position == 0 && !failed
    {
      content, position, failed, gcount := bytes, 0, false, 0;
    }

    /** Overwrites the front of the buffer with the next bytes; fails unless they fill it. */
    method Read(buffer: seq<bv8>) returns (ok: bool, filled: seq<bv8>)
      requires Valid()
      modifies this
      ensures Valid()
      ensures gcount == if |content| - old(position) < |buffer| then |content| - old(position) else |buffer|
      ensures position == old(position) + gcount
      ensures ok ==> gcount == |buffer|
      ensures filled == content[old(position)..position] + buffer[gcount..]
    {
      gcount := if |content| - position < |buffer| then |content| - position else |buffer|;
      filled := content[position..position + gcount] + buffer[gcount..];
      position := position + gcount;
      failed := failed || gcount < |buffer|;
      ok := !failed;
    }
  }

  function Resized(buffer: seq<bv8>, size: nat): (r: seq<bv8>)
    ensures |r| == size && (size <= |buffer| ==> r == buffer[..size])
  {
    if size <= |buffer| then buffer[..size] else buffer + seq(size - |buffer|, _ => 0)
  }

  function FirstOf<T>(s: seq<T>, count: nat): seq<T> {
    if count < |s| then s[..count] else s
  }

  lemma FirstOfTwo<T>(a: seq<T>, b: seq<T>, count: nat)
    ensures FirstOf(a + b, count) == if count < |a| then a[..count] else a + FirstOf(b, count - |a|)
  {
  }

  /** Server::sendMessage: type and payload without a length. A send that would block is repeated. */
  method SendUnframed(socket: Connection, m: Message) returns (ok: bool)
    modifies socket`outgoing, socket`room
    ensures ok <==> |Body(m)| <= old(socket.room)
    ensures socket.outgoing == old(socket.outgoing) + FirstOf(Body(m), old(socket.room))
    ensures socket.room == if ok then old(socket.room) - |Body(m)| else 0
  {
    var message := [m.kind] + m.payload;
    var totalSent := 0;
    while totalSent < |message|
      invariant 0 <= totalSent <= |message|
      invariant socket.outgoing == old(socket.outgoing) + message[..totalSent]
      invariant socket.room == old(socket.room) - totalSent
    {
      var sent := socket.Send(message[totalSent..]);
      if sent <= 0 {
        return false;
      }
      PrefixGrows(old(socket.outgoing), message, totalSent, sent);
      totalSent := totalSent + sent;
    }
    assert message[..|message|] == message;
    ok := true;
  }

  lemma ChunkFirst(name: seq<bv8>, left: seq<bv8>)
    ensures FileReply(name, Opened(left)) ==
            if left == [] then [Message(Protocol.FILE_COMPLETE, [])]
            else var n := Min(|left|, BUFFER_SIZE);
                 [Message(Protocol.FILE_CHUNK, left[..n])] + FileReply(name, Opened(left[n..]))
  {
    if left != [] {
      var n := Min(|left|, BUFFER_SIZE);
      assert left[..|left|] == left;
      assert Chunks(left) == [left[..n]] + Chunks(left[n..]);
    }
  }

  lemma UnframedCons(m: Message, ms: seq<Message>)
    ensures Unframed([m] + ms) == Body(m) + Unframed(ms)
  {
    BodiesCons(m, ms);
    assert ([Body(m)] + Bodies(ms))[1..] == Bodies(ms);
  }

  /** What the client has got of a reply, and what it will get as long as nothing goes wrong. */
  ghost function Total(got: seq<bv8>, name: seq<bv8>, left: seq<bv8>, room: nat): seq<bv8> {
    got + FirstOf(Unframed(FileReply(name, Opened(left))), room)
  }

  lemma ChunkSent(got: seq<bv8>, name: seq<bv8>, left: seq<bv8>, n: nat, room: nat)
    requires left != [] && n == Min(|left|, BUFFER_SIZE)
    ensures var body := Body(Message(Protocol.FILE_CHUNK, left[..n]));
            Total(got, name, left, room) ==
            if room < |body| then got + FirstOf(body, room)
            else Total(got + FirstOf(body, room), name, left[n..], room - |body|)
  {
    hide FileReply, Unframed, Body;
    var m, rest := Message(Protocol.FILE_CHUNK, left[..n]), FileReply(name, Opened(left[n..]));
    ChunkFirst(name, left);
    UnframedCons(m, rest);
    FirstOfTwo(Body(m), Unframed(rest), room);
    if room >= |Body(m)| {
      assert got + (Body(m) + FirstOf(Unframed(rest), room - |Body(m)|))
          == got + Body(m) + FirstOf(Unframed(rest), room - |Body(m)|);
    }
  }

  lemma CompletionSent(got: seq<bv8>, name: seq<bv8>, room: nat)
    ensures Total(got, name, [], room) == got + FirstOf(Body(Message(Protocol.FILE_COMPLETE, [])), room)
  {
    var m := Message(Protocol.FILE_COMPLETE, []);
    ChunkFirst(name, []);
    assert [m] + [] == [m];
    UnframedCons(m, []);
  }

  /** The reading loop: every chunk of what is left of the file, as far as the connection takes them. */
  method SendChunks(name: seq<bv8>, file: InputFile, socket: Connection) returns (sending: bool)
    requires file.Valid()
    modifies file, socket`outgoing, socket`room
    ensures sending ==> Total(socket.outgoing, name, [], socket.room)
                        == old(Total(socket.outgoing, name, file.content[file.position..], socket.room))
    ensures !sending ==> socket.room == 0 && socket.outgoing
                         == old(Total(socket.outgoing, name, file.content[file.position..], socket.room))
  {
    hide Total, Resized, FirstOf, Body;
    ghost var total := Total(socket.outgoing, name, file.content[file.position..], socket.room);
    var buffer := Resized([], BUFFER_SIZE);
    while true
      invariant file.Valid() && |buffer| == BUFFER_SIZE
      invariant total == Total(socket.outgoing, name, file.content[file.position..], socket.room)
      decreases |file.content| - file.position
    {
      ghost var left := file.content[file.position..];
      var ok;
      ok, buffer := file.Read(buffer);
      if !ok && file.gcount == 0 {
        assert left == [];
        return true;
      }
      assert left[file.gcount..] == file.content[file.position..];
      ChunkSent(socket.outgoing, name, left, file.gcount, socket.room);
      buffer := Resized(buffer, file.gcount);
      assert buffer == left[..file.gcount];
      sending := SendUnframed(socket, Message(Protocol.FILE_CHUNK, buffer));
      if !sending {
        return false;
      }
      buffer := Resized(buffer, BUFFER_SIZE);
    }
  }

  /** The bytes of the reply's messages, in order, as far as the connection takes them. */
  method HandleFileRequest(name: seq<bv8>, source: Source, socket: Connection)
    modifies socket`outgoing, socket`room
    ensures socket.outgoing == old(socket.outgoing) + FirstOf(Unframed(FileReply(name, source)), old(socket.room))
  {
    match source
    case Missing(what) =>
      UnframedOne(Message(Protocol.ERROR_MESSAGE, what));
      var _ := SendUnframed(socket, Message(Protocol.ERROR_MESSAGE, what));
    case Unreadable =>
      UnframedOne(Message(Protocol.ERROR_MESSAGE, name));
      var _ := SendUnframed(socket, Message(Protocol.ERROR_MESSAGE, name));
    case Opened(content) =>
      var file := new InputFile(content);
      assert content[0..] == content;
      hide FileReply, Unframed, Body;
      var sending := SendChunks(name, file, socket);
      if sending {
        CompletionSent(socket.outgoing, name, socket.room);
        sending := SendUnframed(socket, Message(Protocol.FILE_COMPLETE, []));
      }
      if !sending {
        // the handler of the exception tries to report it on the same connection
        ghost var before := socket.outgoing;
        var _ := SendUnframed(socket, Message(Protocol.ERROR_MESSAGE, ToBytes("Failed to send message")));
        assert before + [] == before;
      }
  }

  lemma UnframedOne(m: Message)
    ensures Unframed([m]) == Body(m)
  {
    assert [m] + [] == [m];
    UnframedCons(m, []);
  }

  // ---------------------------------------------------------------------------------------------
  // The chunks
  // ---------------------------------------------------------------------------------------------

  lemma CeilingStep(n: nat)
    ensures (n + BUFFER_SIZE + BUFFER_SIZE - 1) / BUFFER_SIZE == 1 + (n + BUFFER_SIZE - 1) / BUFFER_SIZE
  {
  }

  /** The content cut into as few chunks as possible: none empty, none above 8192 bytes, all but the last
      full, and together the content. */
  lemma {:induction false} ChunksPartition(content: seq<bv8>)
    ensures var chunks := Chunks(content);
            && |chunks| == (|content| + 8191) / 8192
            && (forall i | 0 <= i < |chunks| :: 0 < |chunks[i]| <= 8192)
            && (forall i | 0 <= i < |chunks| - 1 :: |chunks[i]| == 8192)
            && Concat(chunks) == content
    decreases |content|
  {
    if content == [] {
    } else if |content| <= BUFFER_SIZE {
      assert [content][1..] == [];
    } else {
      var rest := content[BUFFER_SIZE..];
      ChunksPartition(rest);
      CeilingStep(|rest|);
      assert Chunks(content)[1..] == Chunks(rest);
      assert content == content[..BUFFER_SIZE] + rest;
    }
  }

  // ---------------------------------------------------------------------------------------------
  // Downloading
  // ---------------------------------------------------------------------------------------------

  /** A message that ends the loop of downloadFile. */
  predicate Ends(message: seq<bv8>) {
    message == [] || message[0] == Protocol.FILE_COMPLETE || message[0] == Protocol.ERROR_MESSAGE
  }

  /** The position of the first message that ends the loop; the length if none does before receiveMessage
      throws. */
  function FirstEnd(arrivals: seq<seq<bv8>>): (k: nat)
    ensures k <= |arrivals| && (k < |arrivals| ==> Ends(arrivals[k]))
    ensures forall j | 0 <= j < k :: !Ends(arrivals[j])
  {
    if arrivals == [] || Ends(arrivals[0]) then 0 else 1 + FirstEnd(arrivals[1..])
  }

  /** The payloads of the chunks among these messages. */
  function ChunkPayloads(messages: seq<seq<bv8>>): seq<seq<bv8>> {
    if messages == [] then []
    else
      ChunkPayloads(messages[..|messages| - 1]) + PayloadIfChunk(messages[|messages| - 1])
  }

  function PayloadIfChunk(message: seq<bv8>): seq<seq<bv8>> {
    if message != [] && message[0] == Protocol.FILE_CHUNK then [message[1..]] else []
  }

  /** The bytes a download writes. */
  function Written(arrivals: seq<seq<bv8>>): seq<bv8> {
    Concat(ChunkPayloads(arrivals[..FirstEnd(arrivals)]))
  }

  /** A FILE_COMPLETE comes before any error, empty message or receive failure. */
  predicate Succeeds(arrivals: seq<seq<bv8>>) {
    var k := FirstEnd(arrivals);
    k < |arrivals| && arrivals[k] != [] && arrivals[k][0] == Protocol.FILE_COMPLETE
  }

  /** An error message or a receive failure comes first. */
  predicate Fails(arrivals: seq<seq<bv8>>) {
    var k := FirstEnd(arrivals);
    k == |arrivals| || (arrivals[k] != [] && arrivals[k][0] == Protocol.ERROR_MESSAGE)
  }

  class DownloadProgress {
    const filename: string
    var totalSize: nat
    var downloadedSize: nat
    var completed: bool
    var failed: bool
    var errorMessage: string

    constructor (name: string)
      ensures filename == name && totalSize == downloadedSize == 0 && !completed && !failed && errorMessage == ""
    {
      filename, totalSize, downloadedSize, completed, failed, errorMessage := name, 0, 0, false, false, "";
    }
  }

  /** std::ofstream on a destination that takes no more than the given number of bytes. Writing does not
      report failure unless asked, and it is not asked. */
  class OutputFile {
    const capacity: nat
    ghost var written: seq<bv8>
    var stored: seq<bv8>

    ghost predicate Valid()
      reads this
    {
      stored == FirstOf(written, capacity)
    }

    constructor (space: nat)
      ensures Valid() && written == [] && capacity == space
    {
      capacity, written, stored := space, [], [];
    }

    method Write(data: seq<bv8>)
      requires Valid()
      modifies this
      ensures Valid() && written == old(written) + data
    {
      FirstOfTwo(written, data, capacity);
      stored := stored + FirstOf(data, capacity - |stored|);
      written := written + data;
    }
  }

  /** What can go wrong before the first message is received. */
  datatype Setup = RequestFails(what: string) | NoDestination(path: string) | Ready

  class Client {
    var activeDownloads: map<string, DownloadProgress>

    constructor ()
      ensures activeDownloads == map[]
    {
      activeDownloads := map[];
    }

    /** arrivals: the messages received before receiveMessage throws; what: the text of that exception;
        space: how many bytes the destination takes. None for the file: it was not created. */
    method DownloadFile(filename: string, setup: Setup, arrivals: seq<seq<bv8>>, what: string, space: nat)
      returns (success: bool, file: Option<seq<bv8>>)
      modifies this
      ensures filename in activeDownloads && activeDownloads == old(activeDownloads)[filename := activeDownloads[filename]]
      ensures var progress := activeDownloads[filename];
        && fresh(progress) && progress.filename == filename && !(progress.completed && progress.failed)
        && (progress.completed <==> success) && (setup != Ready ==> file == None && progress.failed)
        && (setup == Ready ==>
              && file == Some(FirstOf(Written(arrivals), space))
              && (success <==> Succeeds(arrivals)) && (progress.failed <==> Fails(arrivals))
              && progress.downloadedSize == |Written(arrivals)|
              && progress.totalSize == (if success then |Written(arrivals)| else 0))
        && progress.errorMessage == match setup
             case RequestFails(text) => text
             case NoDestination(path) => "Cannot create destination file: " + path
             case Ready =>
               if !Fails(arrivals) then ""
               else if FirstEnd(arrivals) == |arrivals| then what
               else "Server error: " + FromBytes(arrivals[FirstEnd(arrivals)][1..])
    {
      hide FromBytes, FirstEnd, ChunkPayloads, Concat;
      var progress := new DownloadProgress(filename);
      activeDownloads := activeDownloads[filename := progress];
      success, file := false, None;
      match setup
      case RequestFails(text) =>
        progress.failed, progress.errorMessage := true, text;
      case NoDestination(path) =>
        progress.failed, progress.errorMessage := true, "Cannot create destination file: " + path;
      case Ready =>
        var output := new OutputFile(space);
        var totalDownloaded := 0;
        var i := 0;
        NothingWritten();
        while i < |arrivals| && !Ends(arrivals[i])
          invariant activeDownloads == old(activeDownloads)[filename := progress] && fresh(progress)
          invariant i <= |arrivals| && forall j | 0 <= j < i :: !Ends(arrivals[j])
          invariant fresh(output) && output.Valid() && output.capacity == space
          invariant output.written == Concat(ChunkPayloads(arrivals[..i]))
          invariant progress.downloadedSize == totalDownloaded == |output.written|
          invariant !progress.completed && !progress.failed
          invariant progress.totalSize == 0 && progress.errorMessage == ""
        {
          ChunksPush(arrivals, i);
          if arrivals[i][0] == Protocol.FILE_CHUNK {
            output.Write(arrivals[i][1..]);
            totalDownloaded := totalDownloaded + |arrivals[i][1..]|;
            progress.downloadedSize := totalDownloaded;
          }
          i := i + 1;
        }
        FirstEndAt(arrivals, i);
        file := Some(output.stored);
        if i == |arrivals| {
          progress.failed, progress.errorMessage := true, what;
        } else if arrivals[i] == [] {
        } else if arrivals[i][0] == Protocol.FILE_COMPLETE {
          progress.completed, progress.totalSize := true, totalDownloaded;
          success := true;
        } else {
          var text := FromBytes(arrivals[i][1..]);
          progress.failed, progress.errorMessage := true, "Server error: " + text;
        }
    }
  }

  lemma {:induction false} FirstEndAt(arrivals: seq<seq<bv8>>, k: nat)
    requires k <= |arrivals| && (k < |arrivals| ==> Ends(arrivals[k]))
    requires forall j | 0 <= j < k :: !Ends(arrivals[j])
    ensures FirstEnd(arrivals) == k
  {
  }

  lemma NothingWritten()
    ensures Concat(ChunkPayloads([])) == []
  {
  }

  lemma ChunksPush(arrivals: seq<seq<bv8>>, i: nat)
    requires i < |arrivals|
    ensures Concat(ChunkPayloads(arrivals[..i + 1])) ==
            Concat(ChunkPayloads(arrivals[..i])) + Concat(PayloadIfChunk(arrivals[i]))
    ensures Concat(PayloadIfChunk(arrivals[i])) ==
            if arrivals[i] != [] && arrivals[i][0] == Protocol.FILE_CHUNK then arrivals[i][1..] else []
  {
    assert arrivals[..i + 1][..i] == arrivals[..i];
    var parts := ChunkPayloads(arrivals[..i]);
    if PayloadIfChunk(arrivals[i]) == [] {
      assert parts + [] == parts;
    } else {
      ConcatPush(parts, arrivals[i][1..]);
      assert [arrivals[i][1..]][1..] == [];
    }
  }

  /** How a download goes on with its next message, or without one: a chunk is written, a message of another
      type passed over, FILE_COMPLETE (7) is success, ERROR_MESSAGE (8) and a receive failure are failure, and
      an empty message is neither. Nothing after the end is written. */
  lemma DownloadSteps(arrivals: seq<seq<bv8>>)
    ensures arrivals == [] ==> !Succeeds(arrivals) && Fails(arrivals) && Written(arrivals) == []
    ensures arrivals != [] ==>
      var m, rest := arrivals[0], arrivals[1..];
      if m == [] then !Succeeds(arrivals) && !Fails(arrivals) && Written(arrivals) == []
      else if m[0] == 7 then Succeeds(arrivals) && !Fails(arrivals) && Written(arrivals) == []
      else if m[0] == 8 then !Succeeds(arrivals) && Fails(arrivals) && Written(arrivals) == []
      else
        && (Succeeds(arrivals) <==> Succeeds(rest)) && (Fails(arrivals) <==> Fails(rest))
        && Written(arrivals) == (if m[0] == 6 then m[1..] else []) + Written(rest)
  {
    NothingWritten();
    if arrivals != [] {
      var m, rest := arrivals[0], arrivals[1..];
      assert arrivals[..0] == [];
      if Ends(m) {
        FirstEndAt(arrivals, 0);
      } else {
        assert FirstEnd(arrivals) == 1 + FirstEnd(rest);
        var k := FirstEnd(rest);
        assert arrivals[..k + 1] == [m] + rest[..k];
        hide FirstEnd, ChunkPayloads, Concat;
        FirstWritten(m, rest[..k]);
      }
    }
  }

  lemma {:induction false} PayloadsCons(m: seq<bv8>, messages: seq<seq<bv8>>)
    ensures ChunkPayloads([m] + messages) == PayloadIfChunk(m) + ChunkPayloads(messages)
    decreases |messages|
  {
    hide PayloadIfChunk;
    var n := |messages|;
    var all := [m] + messages;
    if n == 0 {
      assert all == [m] && all[..0] == [];
    } else {
      assert all[..n] == [m] + messages[..n - 1] && all[n] == messages[n - 1];
      PayloadsCons(m, messages[..n - 1]);
    }
  }

  lemma FirstWritten(m: seq<bv8>, messages: seq<seq<bv8>>)
    ensures Concat(ChunkPayloads([m] + messages)) ==
            (if m != [] && m[0] == 6 then m[1..] else []) + Concat(ChunkPayloads(messages))
  {
    PayloadsCons(m, messages);
    var a, b := PayloadIfChunk(m), ChunkPayloads(messages);
    hide ChunkPayloads;
    if a == [] {
      assert a + b == b;
    } else {
      assert (a + b)[0] == a[0] && (a + b)[1..] == b;
    }
  }

  // ---------------------------------------------------------------------------------------------
  // Transfer
  // ---------------------------------------------------------------------------------------------

  lemma {:induction false} PayloadsOfChunks(chunks: seq<seq<bv8>>)
    ensures ChunkPayloads(Bodies(ChunkMessages(chunks))) == chunks
    decreases |chunks|
  {
    if chunks != [] {
      var n := |chunks| - 1;
      var bodies := Bodies(ChunkMessages(chunks));
      assert bodies[..n] == Bodies(ChunkMessages(chunks[..n]));
      PayloadsOfChunks(chunks[..n]);
      assert bodies[n] == [Protocol.FILE_CHUNK] + chunks[n];
      assert chunks == chunks[..n] + [chunks[n]];
    }
  }

  lemma {:induction false} ConcatPrefix(parts: seq<seq<bv8>>, n: nat)
    requires n <= |parts|
    ensures Concat(parts[..n]) <= Concat(parts)
  {
    if n > 0 {
      assert parts[..n][1..] == parts[1..][..n - 1];
      ConcatPrefix(parts[1..], n - 1);
    }
  }

  /** When a download gets the first messages of the server's reply for a file and then nothing more, it
      succeeds if and only if these are the whole reply, and then it has written the file; otherwise it
      fails, and what it has written is the beginning of the file. */
  lemma TransferCorrect(name: seq<bv8>, content: seq<bv8>, n: nat)
    requires n <= |FileReply(name, Opened(content))|
    ensures var reply := FileReply(name, Opened(content));
            var arrivals := Bodies(reply[..n]);
            && (Succeeds(arrivals) <==> n == |reply|) && (Fails(arrivals) <==> n < |reply|)
            && Written(arrivals) <= content
            && (n == |reply| ==> Written(arrivals) == content)
  {
    hide Concat, Chunks, ChunkPayloads, FirstEnd;
    var chunks := Chunks(content);
    var reply := FileReply(name, Opened(content));
    var arrivals := Bodies(reply[..n]);
    var k := if n == |reply| then |chunks| else n;
    assert arrivals[..k] == Bodies(ChunkMessages(chunks[..k]));
    FirstEndAt(arrivals, k);
    PayloadsOfChunks(chunks[..k]);
    ChunksPartition(content);
    ConcatPrefix(chunks, k);
    assert chunks[..|chunks|] == chunks;
  }

  /** What the server answers when it does not have the file: ERROR_MESSAGE (8) with the text of the exception,
      or with the name of a file that cannot be opened. */
  lemma ErrorReplies(name: seq<bv8>, what: seq<bv8>)
    ensures Unframed(FileReply(name, Missing(what))) == [8] + what
    ensures Unframed(FileReply(name, Unreadable)) == [8] + name
  {
    UnframedOne(Message(Protocol.ERROR_MESSAGE, what));
    UnframedOne(Message(Protocol.ERROR_MESSAGE, name));
  }

  /** And when it has the file: its chunks, each as a FILE_CHUNK (6), then FILE_COMPLETE (7), nothing else. */
  lemma OpenedReply(name: seq<bv8>, content: seq<bv8>)
    ensures var messages := Bodies(FileReply(name, Opened(content))); var n := |Chunks(content)|;
            && |messages| == n + 1 && messages[n] == [7]
            && forall i | 0 <= i < n :: messages[i] == [6] + Chunks(content)[i]
  {
    hide Chunks;
  }

  /** A download of the whole reply succeeds if and only if the file was opened. Otherwise it fails with nothing
      written, at the message that says why. */
  lemma ReplyOutcome(name: seq<bv8>, source: Source)
    ensures var arrivals := Bodies(FileReply(name, source));
            && (Succeeds(arrivals) <==> source.Opened?) && (Fails(arrivals) <==> !source.Opened?)
            && (!source.Opened? ==>
                  && Written(arrivals) == [] && FirstEnd(arrivals) == 0 < |arrivals|
                  && arrivals[0] == [8] + (match source case Missing(what) => what case _ => name))
  {
    var reply := FileReply(name, source);
    var arrivals := Bodies(reply);
    match source
    case Opened(content) =>
      hide FileReply, Succeeds, Fails, Written, Bodies;
      assert reply[..|reply|] == reply;
      TransferCorrect(name, content, |reply|);
    case _ =>
      DownloadSteps(arrivals);
      FirstEndAt(arrivals, 0);
  }

  /** The text that an error reply carries. */
  function ErrorText(name: seq<bv8>, source: Source): seq<bv8> {
    match source
    case Missing(what) => what
    case _ => name
  }

  /** The same over the client's framing, for error texts of any length: success only if the file was opened, and
      failure if not, unless the length of the reply is cut down to zero. */
  lemma FramedOutcome(name: seq<bv8>, source: Source)
    ensures var arrivals := ReceivedAll(Frames(FileReply(name, source))).messages;
            && (Succeeds(arrivals) <==> source.Opened?)
            && (Fails(arrivals) <==> !source.Opened? && (1 + |ErrorText(name, source)|) % TWO_32 != 0)
            && (!source.Opened? ==> Written(arrivals) == [])
            && (!source.Opened? && 1 + |ErrorText(name, source)| <= MAX_MESSAGE ==>
                  FirstEnd(arrivals) == 0 < |arrivals| && arrivals[0] == [8] + ErrorText(name, source))
  {
    var reply := FileReply(name, source);
    if source.Opened? {
      ReplyFits(name, source.content);
      ReplyOutcome(name, source);
      hide *;
      StreamReceived(reply);
    } else {
      var m := Message(8, ErrorText(name, source));
      assert reply == [m];
      hide FileReply, ErrorText, Succeeds, Fails, Written, ReceivedAll, Frame, Frames, FirstEnd;
      FramesOne(m);
      ErrorOutcome(m);
    }
  }

  lemma FramesOne(m: Message)
    ensures Frames([m]) == Frame(m)
  {
    assert [m][1..] == [] && Frame(m) + [] == Frame(m);
  }

  /** An error message that is too large is not received as it was sent; what its length is cut down to, if that
      fits, is a beginning of it. */
  lemma ErrorOutcome(m: Message)
    requires m.kind == 8
    ensures var arrivals := ReceivedAll(Frame(m)).messages;
            && !Succeeds(arrivals) && Written(arrivals) == []
            && (Fails(arrivals) <==> |Body(m)| % TWO_32 != 0)
            && (Fits(m) ==> FirstEnd(arrivals) == 0 < |arrivals| && arrivals[0] == Body(m))
  {
    var length := Trunc32(|Body(m)|);
    var arrivals := ReceivedAll(Frame(m)).messages;
    FirstReceived(m);
    DownloadSteps(arrivals);
    hide Succeeds, Fails, Written, Received, ReceivedAll, Frame;
    if length <= MAX_MESSAGE && length > 0 {
      assert Body(m)[..length][0] == 8;
      FirstEndAt(arrivals, 0);
    }
    if Fits(m) {
      assert Body(m)[..|Body(m)|] == Body(m);
    }
  }

  lemma FirstReceived(m: Message)
    ensures var arrivals := ReceivedAll(Frame(m)).messages; var length := Trunc32(|Body(m)|);
            if length > MAX_MESSAGE then arrivals == []
            else arrivals != [] && arrivals[0] == Body(m)[..length]
  {
    hide BigEndian, FromBigEndian;
    var length := Trunc32(|Body(m)|);
    FromToBigEndian(length);
    assert Frame(m)[..4] == BigEndian(length);
    assert length <= |Body(m)|;
    assert Frame(m)[4..4 + length] == Body(m)[..length];
  }

  /** The same over a framed stream, wherever it is cut off. */
  lemma FramedTransfer(name: seq<bv8>, content: seq<bv8>, cut: seq<bv8>)
    requires cut <= Frames(FileReply(name, Opened(content)))
    ensures var arrivals := ReceivedAll(cut).messages;
            && (Succeeds(arrivals) <==> cut == Frames(FileReply(name, Opened(content))))
            && (Succeeds(arrivals) ==> Written(arrivals) == content)
            && (!Succeeds(arrivals) ==> Fails(arrivals) && Written(arrivals) <= content)
  {
    var reply := FileReply(name, Opened(content));
    var n := WholeFrames(reply, |cut|);
    ReplyFits(name, content);
    hide *;
    CutStream(reply, cut);
    TransferCorrect(name, content, n);
    assert reply[..|reply|] == reply;
    if n < |reply| {
      FramesGrow(reply, n + 1);
    }
  }

  lemma ReplyFits(name: seq<bv8>, content: seq<bv8>)
    ensures forall m | m in FileReply(name, Opened(content)) :: Fits(m)
  {
    ChunksPartition(content);
    hide Chunks, Concat;
  }

  /** A download of the whole reply reports success whatever the destination takes, and has stored the file
      if and only if the destination takes all of it. */
  lemma StoredWhole(name: seq<bv8>, content: seq<bv8>, space: nat)
    ensures var arrivals := Bodies(FileReply(name, Opened(content)));
            Succeeds(arrivals) && (FirstOf(Written(arrivals), space) == content <==> |content| <= space)
  {
    var reply := FileReply(name, Opened(content));
    hide FileReply, Written, Succeeds, Bodies;
    assert reply[..|reply|] == reply;
    TransferCorrect(name, content, |reply|);
  }

  /** Over what the server really writes, its reply without lengths and cut off anywhere, every download
      fails at once: the file is created and stays empty. */
  lemma UnframedTransferFails(name: seq<bv8>, source: Source, room: nat)
    ensures var arrivals := ReceivedAll(FirstOf(Unframed(FileReply(name, source)), room)).messages;
            !Succeeds(arrivals) && Fails(arrivals) && Written(arrivals) == []
  {
    var reply := FileReply(name, source);
    assert reply != [] && reply[0].kind != 0;
    assert reply == [reply[0]] + reply[1..];
    UnframedCons(reply[0], reply[1..]);
    var stream := FirstOf(Unframed(reply), room);
    assert stream != [] ==> stream[0] == reply[0].kind;
    UnframedRefused(stream);
    hide Received;
  }
}

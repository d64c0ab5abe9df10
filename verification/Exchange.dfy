/** Exchange of peer and file lists as text: the printers of src/Server.cpp against the parsers of
    src/Client.cpp and the merge of PeerManager::connectToBootstrapNodes. */
module Exchange {
  import opened Bytes
  import opened Files
  import opened Text
  import opened Peers
  import opened PeerText
  import Protocol

  // ---------------------------------------------------------------------------------------------
  // Printing on the server
  // ---------------------------------------------------------------------------------------------

  function SerializedAll(ps: seq<PeerRecord>): (r: seq<string>)
    ensures |r| == |ps|
  {
    seq(|ps|, i requires 0 <= i < |ps| => Serialized(ps[i]))
  }

  function PrintPeers(ps: seq<PeerRecord>): string {
    Terminated(SerializedAll(ps), '\n')
  }

  /** A reply of Server::sendMessage: the type byte, then the payload. */
  function Reply(kind: bv8, text: string): seq<bv8> {
    [kind] + ToBytes(text)
  }

  ghost function RecordsOf(peers: seq<Peer>): (r: seq<PeerRecord>)
    reads peers
    ensures |r| == |peers|
  {
    seq(|peers|, i requires 0 <= i < |peers| reads peers => peers[i].Record())
  }

  method HandlePeerListRequest(peers: seq<Peer>) returns (message: seq<bv8>)
    ensures message == Reply(Protocol.PEER_LIST_RESPONSE, PrintPeers(RecordsOf(peers)))
  {
    hide Serialized;
    var text := "";
    for i := 0 to |peers|
      invariant text == PrintPeers(RecordsOf(peers)[..i])
    {
      var line := peers[i].Serialize();
      ghost var ps := RecordsOf(peers);
      assert SerializedAll(ps[..i + 1]) == SerializedAll(ps[..i]) + [Serialized(ps[i])];
      TerminatedPush(SerializedAll(ps[..i]), Serialized(ps[i]), '\n');
      text := text + line + "\n";
    }
    assert RecordsOf(peers)[..|peers|] == RecordsOf(peers);
    message := [Protocol.PEER_LIST_RESPONSE] + ToBytes(text);
  }

  function FileLine(f: FileInfo): string {
    f.filename + [BAR] + PrintNat(f.size) + [BAR] + f.hash
  }

  function FileLines(files: seq<FileInfo>): (r: seq<string>)
    ensures |r| == |files|
  {
    seq(|files|, i requires 0 <= i < |files| => FileLine(files[i]))
  }

  function PrintFiles(files: seq<FileInfo>): string {
    Terminated(FileLines(files), '\n')
  }

  method HandleFileListRequest(files: seq<FileInfo>) returns (message: seq<bv8>)
    ensures message == Reply(Protocol.FILE_LIST_RESPONSE, PrintFiles(files))
  {
    hide PrintNat;
    var text := "";
    for i := 0 to |files|
      invariant text == PrintFiles(files[..i])
    {
      var file := files[i];
      assert FileLines(files[..i + 1]) == FileLines(files[..i]) + [FileLine(file)];
      TerminatedPush(FileLines(files[..i]), FileLine(file), '\n');
      text := text + file.filename + [BAR] + PrintNat(file.size) + [BAR] + file.hash + "\n";
      assert text == PrintFiles(files[..i]) + FileLine(file) + ['\n'];
    }
    assert files[..|files|] == files;
    message := [Protocol.FILE_LIST_RESPONSE] + ToBytes(text);
  }

  lemma {:induction false} TerminatedInOrder(a: seq<string>, line: string, b: seq<string>)
    ensures Terminated(a + [line] + b, '\n') == Terminated(a, '\n') + line + "\n" + Terminated(b, '\n')
    decreases |a|
  {
    var all := a + [line] + b;
    if a == [] {
      assert all == [line] + b && all[1..] == b;
    } else {
      var rest := a[1..] + [line] + b;
      assert all[0] == a[0] && all[1..] == rest;
      TerminatedInOrder(a[1..], line, b);
      var head, x, y := a[0] + "\n", Terminated(a[1..], '\n'), Terminated(b, '\n');
      assert Terminated(all, '\n') == head + Terminated(rest, '\n') && Terminated(a, '\n') == head + x;
      hide Terminated;
      assert head + (x + line + "\n" + y) == head + x + line + "\n" + y;
    }
  }

  /** The printed lists: one line for each peer or file, in order, and nothing else. */
  lemma PrintedInOrder(ps: seq<PeerRecord>, p: PeerRecord, qs: seq<PeerRecord>,
                       files: seq<FileInfo>, f: FileInfo, more: seq<FileInfo>)
    ensures PrintPeers([]) == "" && PrintFiles([]) == ""
    ensures PrintPeers(ps + [p] + qs) == PrintPeers(ps) + Serialized(p) + "\n" + PrintPeers(qs)
    ensures PrintFiles(files + [f] + more) ==
            PrintFiles(files) + (f.filename + "|" + PrintNat(f.size) + "|" + f.hash) + "\n" + PrintFiles(more)
  {
    hide Serialized, PrintNat;
    assert SerializedAll(ps + [p] + qs) == SerializedAll(ps) + [Serialized(p)] + SerializedAll(qs);
    assert FileLines(files + [f] + more) == FileLines(files) + [FileLine(f)] + FileLines(more);
    TerminatedInOrder(SerializedAll(ps), Serialized(p), SerializedAll(qs));
    TerminatedInOrder(FileLines(files), FileLine(f), FileLines(more));
  }

  // ---------------------------------------------------------------------------------------------
  // Parsing in the client
  // ---------------------------------------------------------------------------------------------

  function NonEmpty(lines: seq<string>): seq<string> {
    if lines == [] then [] else (if lines[0] == "" then [] else [lines[0]]) + NonEmpty(lines[1..])
  }

  lemma NonEmptyStep(done: seq<string>, line: string, lines: seq<string>)
    ensures done + NonEmpty([line] + lines) == (if line == "" then done else done + [line]) + NonEmpty(lines)
  {
    assert ([line] + lines)[1..] == lines;
  }

  lemma NonEmptyEnd(done: seq<string>)
    ensures done + NonEmpty([]) == done
  {
  }

  /** The peer strings that requestPeerList returns for a response; None when it throws. */
  function PeerLines(response: seq<bv8>): Option<seq<string>> {
    if response == [] || response[0] != Protocol.PEER_LIST_RESPONSE then None
    else Some(NonEmpty(Split(FromBytes(response[1..]), '\n')))
  }

  method RequestPeerList(response: seq<bv8>) returns (r: Option<seq<string>>)
    ensures r == PeerLines(response)
  {
    if response == [] || response[0] != Protocol.PEER_LIST_RESPONSE {
      return None;
    }
    var data := FromBytes(response[1..]);
    hide Split, Line, Rest, FromBytes, NonEmpty;
    var iss := new StringStream(data);
    var peers: seq<string> := [];
    ghost var left := data;
    var more := true;
    while more
      invariant iss.Valid() && iss.Remaining() == left
      invariant NonEmpty(Split(data, '\n')) == peers + NonEmpty(Split(left, '\n'))
      invariant !more ==> left == ""
      decreases |left|, more
    {
      var ok, line := iss.GetLine('\n');
      if ok {
        SplitStep(left, '\n');
        left := Rest(left, '\n');
        NonEmptyStep(peers, line, Split(left, '\n'));
        if line != "" {
          peers := peers + [line];
        }
      }
      more := ok;
    }
    SplitNone('\n');
    NonEmptyEnd(peers);
    r := Some(peers);
  }

  /** One line of a file list: three getline calls and std::stoull; None when the line is dropped. */
  function ParseFileLine(line: string): Option<FileInfo> {
    var afterName := Rest(line, BAR);
    var afterSize := Rest(afterName, BAR);
    if line == "" || afterName == "" || afterSize == "" then None
    else
      match Stoul(Line(afterName, BAR))
      case None => None
      case Some(size) => Some(FileInfo(Line(line, BAR), "", size, Line(afterSize, '\n'), 0))
  }

  function ParseFileLines(lines: seq<string>): seq<FileInfo> {
    if lines == [] then []
    else (match ParseFileLine(lines[0]) case None => [] case Some(f) => [f]) + ParseFileLines(lines[1..])
  }

  lemma ParseFileLinesStep(done: seq<FileInfo>, line: string, lines: seq<string>)
    ensures done + ParseFileLines([line] + lines) ==
            (match ParseFileLine(line) case None => done case Some(f) => done + [f]) + ParseFileLines(lines)
  {
    hide ParseFileLine;
    assert ([line] + lines)[1..] == lines;
  }

  lemma ParseFileLinesEnd(done: seq<FileInfo>)
    ensures done + ParseFileLines([]) == done
  {
  }

  /** The files that requestFileList returns for a response; None when it throws. */
  function FilesIn(response: seq<bv8>): Option<seq<FileInfo>> {
    if response == [] || response[0] != Protocol.FILE_LIST_RESPONSE then None
    else Some(ParseFileLines(Split(FromBytes(response[1..]), '\n')))
  }

  method ReadFileLine(line: string) returns (r: Option<FileInfo>)
    ensures r == ParseFileLine(line)
  {
    hide Line, Rest, Stoul;
    r := None;
    var stream := new StringStream(line);
    var ok, filename := stream.GetLine(BAR);
    if ok {
      var size;
      ok, size := stream.GetLine(BAR);
      if ok {
        var hash;
        ok, hash := stream.GetLine('\n');
        if ok {
          var n := Stoul(size);
          if n.Some? {
            r := Some(FileInfo(filename, "", n.value, hash, 0));
          }
        }
      }
    }
  }

  method RequestFileList(response: seq<bv8>) returns (r: Option<seq<FileInfo>>)
    ensures r == FilesIn(response)
  {
    if response == [] || response[0] != Protocol.FILE_LIST_RESPONSE {
      return None;
    }
    var data := FromBytes(response[1..]);
    NoFileInEmptyLine();
    hide Split, Line, Rest, FromBytes, ParseFileLine, ParseFileLines;
    var iss := new StringStream(data);
    var files: seq<FileInfo> := [];
    ghost var left := data;
    var more := true;
    while more
      invariant iss.Valid() && iss.Remaining() == left
      invariant ParseFileLines(Split(data, '\n')) == files + ParseFileLines(Split(left, '\n'))
      invariant !more ==> left == ""
      decreases |left|, more
    {
      var ok, line := iss.GetLine('\n');
      if ok {
        SplitStep(left, '\n');
        left := Rest(left, '\n');
        ParseFileLinesStep(files, line, Split(left, '\n'));
        if line != "" {
          var file := ReadFileLine(line);
          if file.Some? {
            files := files + [file.value];
          }
        }
      }
      more := ok;
    }
    SplitNone('\n');
    ParseFileLinesEnd(files);
    r := Some(files);
  }

  lemma NoFileInEmptyLine()
    ensures ParseFileLine("") == None
  {
  }

  // ---------------------------------------------------------------------------------------------
  // Any response
  // ---------------------------------------------------------------------------------------------

  /** Both requests throw on an empty response and on one of any other type. */
  lemma ResponseTypes(response: seq<bv8>)
    ensures PeerLines(response).Some? <==> response != [] && response[0] == 2
    ensures FilesIn(response).Some? <==> response != [] && response[0] == 4
  {
  }

  /** Every line that is not empty is returned, in order. */
  lemma {:induction false} NonEmptyInOrder(lines: seq<string>, line: string, more: seq<string>)
    ensures NonEmpty(lines + [line] + more) == NonEmpty(lines) + (if line == "" then [] else [line]) + NonEmpty(more)
    decreases |lines|
  {
    var all := lines + [line] + more;
    if lines == [] {
      assert all == [line] + more && all[1..] == more;
    } else {
      var rest := lines[1..] + [line] + more;
      assert all[0] == lines[0] && all[1..] == rest;
      NonEmptyInOrder(lines[1..], line, more);
      var head := if lines[0] == "" then [] else [lines[0]];
      var a, b, c := NonEmpty(lines[1..]), if line == "" then [] else [line], NonEmpty(more);
      assert NonEmpty(all) == head + NonEmpty(rest) && NonEmpty(lines) == head + a;
      hide NonEmpty;
      assert head + (a + b + c) == head + a + b + c;
    }
  }

  function Parsed(line: string): seq<FileInfo> {
    match ParseFileLine(line)
    case None => []
    case Some(f) => [f]
  }

  /** Every line is parsed by itself, and its record returned, in order. */
  lemma {:induction false} FileLinesInOrder(lines: seq<string>, line: string, more: seq<string>)
    ensures ParseFileLines(lines + [line] + more) == ParseFileLines(lines) + Parsed(line) + ParseFileLines(more)
    decreases |lines|
  {
    hide ParseFileLine;
    var all := lines + [line] + more;
    if lines == [] {
      assert all == [line] + more && all[1..] == more;
    } else {
      var rest := lines[1..] + [line] + more;
      assert all[0] == lines[0] && all[1..] == rest;
      FileLinesInOrder(lines[1..], line, more);
      var head, a, b, c := Parsed(lines[0]), ParseFileLines(lines[1..]), Parsed(line), ParseFileLines(more);
      assert ParseFileLines(all) == head + ParseFileLines(rest) && ParseFileLines(lines) == head + a;
      hide ParseFileLines, Parsed;
      assert head + (a + b + c) == head + a + b + c;
    }
  }

  lemma LineAndRest(s: string, delimiter: char)
    ensures Rest(s, delimiter) != "" ==>
              s == Line(s, delimiter) + [delimiter] + Rest(s, delimiter) && delimiter !in Line(s, delimiter)
  {
  }

  /** Exactly the lines that give a record: a name and a number without a bar, and a hash, separated by bars. */
  lemma FileLineExactly(line: string, f: FileInfo)
    requires '\n' !in line
    ensures ParseFileLine(line) == Some(f) <==>
            && f.hash != "" && f.filepath == "" && f.lastModified == 0 && BAR !in f.filename
            && exists size: string ::
                 BAR !in size && Stoul(size) == Some(f.size) && line == f.filename + ['|'] + size + ['|'] + f.hash
  {
    hide Line, Rest, Stoul;
    if ParseFileLine(line) == Some(f) {
      var afterName := Rest(line, BAR);
      var size := Line(afterName, BAR);
      LineAndRest(line, BAR);
      LineAndRest(afterName, BAR);
      WholeLine(Rest(afterName, BAR));
      assert line == f.filename + [BAR] + size + [BAR] + f.hash;
    }
    forall size: string | BAR !in size && Stoul(size) == Some(f.size) && BAR !in f.filename && f.hash != ""
                          && line == f.filename + ['|'] + size + ['|'] + f.hash
      ensures ParseFileLine(line) == Some(FileInfo(f.filename, "", f.size, f.hash, 0))
    {
      var afterName := size + [BAR] + f.hash;
      assert line == f.filename + [BAR] + afterName;
      FieldFirst(f.filename, BAR, afterName);
      FieldFirst(size, BAR, f.hash);
      WholeLine(f.hash);
    }
  }

  // ---------------------------------------------------------------------------------------------
  // File lists arrive
  // ---------------------------------------------------------------------------------------------

  predicate ListableFile(f: FileInfo) {
    BAR !in f.filename && '\n' !in f.filename && '\n' !in f.hash && f.size < TWO_64
  }

  function Hashed(files: seq<FileInfo>): seq<FileInfo> {
    if files == [] then [] else (if files[0].hash == "" then [] else [files[0]]) + Hashed(files[1..])
  }

  lemma FileLineParsed(f: FileInfo)
    requires ListableFile(f)
    ensures ParseFileLine(FileLine(f)) == if f.hash == "" then None else Some(Strip(f))
    ensures '\n' !in FileLine(f)
  {
    hide Line, Rest, Stoul, PrintNat, PrintInt;
    var size := PrintNat(f.size);
    assert size == PrintInt(f.size) by {
      NatAsInt(f.size);
    }
    NumberClean(f.size);
    NumberRoundTrip(f.size, 0);
    PrintNatDigits(f.size);
    var afterName := size + [BAR] + f.hash;
    assert FileLine(f) == f.filename + [BAR] + afterName;
    FieldFirst(f.filename, BAR, afterName);
    FieldFirst(size, BAR, f.hash);
    WholeLine(f.hash);
  }

  lemma NatAsInt(n: nat)
    ensures PrintInt(n) == PrintNat(n)
  {
  }

  lemma WholeLine(s: string)
    requires '\n' !in s
    ensures Line(s, '\n') == s
  {
    FirstAt(s, '\n', |s|);
    assert s[..|s|] == s;
  }

  lemma {:induction false} FileLinesParsed(files: seq<FileInfo>)
    requires forall f | f in files :: ListableFile(f)
    ensures ParseFileLines(FileLines(files)) == StripAll(Hashed(files))
    ensures forall l | l in FileLines(files) :: '\n' !in l
  {
    hide ParseFileLine, FileLine;
    if files != [] {
      assert FileLines(files)[1..] == FileLines(files[1..]);
      FileLinesParsed(files[1..]);
      FileLineParsed(files[0]);
      StripAllCons(files[0], Hashed(files[1..]));
      assert FileLines(files) == [FileLine(files[0])] + FileLines(files[1..]);
    }
  }

  lemma StripAllCons(f: FileInfo, files: seq<FileInfo>)
    ensures StripAll([f] + files) == [Strip(f)] + StripAll(files)
  {
  }

  /** requestFileList inverts handleFileListRequest on the files that have a hash; the others are dropped. */
  lemma FileListExchange(files: seq<FileInfo>)
    requires forall f | f in files :: ListableFile(f)
    requires IsText(PrintFiles(files))
    ensures FilesIn(Reply(Protocol.FILE_LIST_RESPONSE, PrintFiles(files))) == Some(StripAll(Hashed(files)))
  {
    var message := Reply(Protocol.FILE_LIST_RESPONSE, PrintFiles(files));
    assert message[1..] == ToBytes(PrintFiles(files));
    hide ToBytes, FromBytes, Split, ParseFileLines, StripAll, Hashed, FileLines;
    FromToBytes(PrintFiles(files));
    FileLinesParsed(files);
    SplitTerminated(FileLines(files), '\n');
  }

  /** A file record that survives the exchange. */
  predicate CleanEntry(f: FileInfo) {
    BAR !in f.filename && '\n' !in f.filename && '\n' !in f.hash && f.hash != ""
  }

  lemma LinePart(s: string, delimiter: char, c: char)
    ensures delimiter !in Line(s, delimiter)
    ensures c !in s ==> c !in Line(s, delimiter) && c !in Rest(s, delimiter)
  {
  }

  lemma ParsedEntryClean(line: string)
    requires '\n' !in line && ParseFileLine(line).Some?
    ensures CleanEntry(ParseFileLine(line).value)
  {
    hide Line, Rest, Stoul;
    var afterName := Rest(line, BAR);
    LinePart(line, BAR, '\n');
    LinePart(afterName, BAR, '\n');
    WholeLine(Rest(afterName, BAR));
  }

  lemma {:induction false} ParsedClean(lines: seq<string>)
    requires forall l | l in lines :: '\n' !in l
    ensures forall f | f in ParseFileLines(lines) :: CleanEntry(f)
  {
    hide ParseFileLine, CleanEntry;
    if lines != [] {
      ParsedClean(lines[1..]);
      if ParseFileLine(lines[0]).Some? {
        ParsedEntryClean(lines[0]);
      }
    }
  }

  lemma {:induction false} AllHashed(files: seq<FileInfo>)
    requires forall f | f in files :: f.hash != ""
    ensures Hashed(files) == files
  {
    if files != [] {
      AllHashed(files[1..]);
      assert files == [files[0]] + files[1..];
    }
  }

  /** The whole file list arrives if and only if no name contains the bar or a newline, no hash contains
      a newline and no hash is empty. */
  lemma FileListIntact(files: seq<FileInfo>)
    requires (forall f | f in files :: f.size < TWO_64) && IsText(PrintFiles(files))
    ensures FilesIn(Reply(Protocol.FILE_LIST_RESPONSE, PrintFiles(files))) == Some(StripAll(files))
            <==> forall f | f in files :: CleanEntry(f)
  {
    var message := Reply(Protocol.FILE_LIST_RESPONSE, PrintFiles(files));
    hide PrintFiles, ParseFileLines, Split, FromBytes;
    if forall f | f in files :: CleanEntry(f) {
      FileListExchange(files);
      AllHashed(files);
    } else if FilesIn(message) == Some(StripAll(files)) {
      var lines := Split(FromBytes(message[1..]), '\n');
      SplitClean(FromBytes(message[1..]), '\n');
      ParsedClean(lines);
      forall f | f in files
        ensures CleanEntry(f)
      {
        var i :| 0 <= i < |files| && files[i] == f;
        assert StripAll(files)[i] in ParseFileLines(lines);
      }
      assert false;
    }
  }

  // ---------------------------------------------------------------------------------------------
  // Peer lists arrive
  // ---------------------------------------------------------------------------------------------

  /** The merge of received peer strings: each that can be deserialized replaces the peer of its id. */
  function MergeLine(peers: map<string, PeerRecord>, line: string): map<string, PeerRecord> {
    match Deserialized(line)
    case None => peers
    case Some(p) => peers[p.id := p]
  }

  function MergeLines(peers: map<string, PeerRecord>, lines: seq<string>): map<string, PeerRecord>
    decreases |lines|
  {
    if lines == [] then peers else MergeLines(MergeLine(peers, lines[0]), lines[1..])
  }

  /** A record that is printed on one line. */
  predicate OneLine(p: PeerRecord) {
    '\n' !in p.id && '\n' !in p.ip && forall f | f in p.files :: '\n' !in f.filename && '\n' !in f.hash
  }

  /** A record that is also read back. */
  predicate Exchangeable(p: PeerRecord) {
    InRange(p) && NoBar(p) && OneLine(p)
  }

  lemma {:induction false} JoinAvoids(fields: seq<string>, c: char)
    requires c != BAR && forall f | f in fields :: c !in f
    ensures c !in Join(fields, BAR)
  {
    if |fields| > 1 {
      JoinAvoids(fields[1..], c);
    }
  }

  lemma SerializedLine(p: PeerRecord)
    requires OneLine(p)
    ensures Serialized(p) != "" && '\n' !in Serialized(p)
  {
    FieldsAvoid(p, '\n');
    hide PrintNat, PrintInt, FileFields;
    JoinAvoids(Fields(p), '\n');
    JoinCons(Fields(p), BAR);
  }

  lemma {:induction false} NonEmptyAll(lines: seq<string>)
    requires "" !in lines
    ensures NonEmpty(lines) == lines
  {
    if lines != [] {
      assert lines == [lines[0]] + lines[1..];
      NonEmptyAll(lines[1..]);
    }
  }

  /** The client gets exactly the printed lines when no text field contains a newline. */
  lemma PeerLinesArrive(ps: seq<PeerRecord>)
    requires (forall p | p in ps :: OneLine(p)) && IsText(PrintPeers(ps))
    ensures PeerLines(Reply(Protocol.PEER_LIST_RESPONSE, PrintPeers(ps))) == Some(SerializedAll(ps))
  {
    var message, lines := Reply(Protocol.PEER_LIST_RESPONSE, PrintPeers(ps)), SerializedAll(ps);
    assert message[1..] == ToBytes(PrintPeers(ps));
    forall l | l in lines
      ensures l != "" && '\n' !in l
    {
      var i :| 0 <= i < |ps| && l == Serialized(ps[i]);
      assert ps[i] in ps;
      SerializedLine(ps[i]);
    }
    hide ToBytes, FromBytes, Split, NonEmpty, OneLine, SerializedAll;
    FromToBytes(PrintPeers(ps));
    SplitTerminated(lines, '\n');
    NonEmptyAll(lines);
  }

  ghost predicate DistinctIds(ps: seq<PeerRecord>) {
    forall i, j | 0 <= i < j < |ps| :: ps[i].id != ps[j].id
  }

  ghost predicate OverwrittenBy(after: map<string, PeerRecord>, before: map<string, PeerRecord>, ps: seq<PeerRecord>) {
    && (forall i | 0 <= i < |ps| :: ps[i].id in after && after[ps[i].id] == Received(ps[i]))
    && (forall id | id in after :: id in before || exists i :: 0 <= i < |ps| && ps[i].id == id)
    && (forall id | id in before && (forall i | 0 <= i < |ps| :: ps[i].id != id) ::
          id in after && after[id] == before[id])
  }

  lemma {:induction false} MergeSerialized(before: map<string, PeerRecord>, ps: seq<PeerRecord>)
    requires DistinctIds(ps)
    requires forall p | p in ps :: Exchangeable(p) && DistinctNames(p.files)
    ensures OverwrittenBy(MergeLines(before, SerializedAll(ps)), before, ps)
    decreases |ps|
  {
    hide Serialized, Deserialized, Received, Exchangeable, DistinctNames;
    if ps != [] {
      var p, rest := ps[0], ps[1..];
      var lines := SerializedAll(ps);
      assert lines[1..] == SerializedAll(rest);
      ExchangeableReceived(p);
      var first := MergeLine(before, lines[0]);
      MergeSerialized(first, rest);
      MergeFirst(MergeLines(first, SerializedAll(rest)), before, ps);
    }
  }

  lemma ExchangeableReceived(p: PeerRecord)
    requires Exchangeable(p) && DistinctNames(p.files)
    ensures Deserialized(Serialized(p)) == Some(Received(p)) && Received(p).id == p.id
  {
    ReceivedText(p);
  }

  lemma MergeFirst(after: map<string, PeerRecord>, before: map<string, PeerRecord>, ps: seq<PeerRecord>)
    requires ps != [] && DistinctIds(ps)
    requires OverwrittenBy(after, before[ps[0].id := Received(ps[0])], ps[1..])
    ensures OverwrittenBy(after, before, ps)
  {
    hide Received;
    var rest := ps[1..];
    assert forall i | 0 <= i < |rest| :: rest[i] == ps[i + 1];
    forall id | id in after
      ensures id in before || exists i :: 0 <= i < |ps| && ps[i].id == id
    {
      if j: nat :| j < |rest| && rest[j].id == id {
        assert ps[j + 1].id == id;
      } else if id == ps[0].id {
        assert ps[0].id == id;
      }
    }
    forall i | 0 <= i < |ps|
      ensures ps[i].id in after && after[ps[i].id] == Received(ps[i])
    {
      if i > 0 {
        assert ps[i] == rest[i - 1];
      }
    }
  }

  /** Printing all peers, splitting the reply and merging the lines makes the joiner's table its old table
      overwritten by the responder's peers, keyed by id; each peer arrives as PeerText.ReceivedText says. */
  lemma PeerListExchange(before: map<string, PeerRecord>, ps: seq<PeerRecord>)
    requires DistinctIds(ps) && IsText(PrintPeers(ps))
    requires forall p | p in ps :: Exchangeable(p) && DistinctNames(p.files)
    ensures var lines := PeerLines(Reply(Protocol.PEER_LIST_RESPONSE, PrintPeers(ps)));
            lines.Some? && OverwrittenBy(MergeLines(before, lines.value), before, ps)
  {
    assert forall p | p in ps :: OneLine(p);
    hide *;
    PeerLinesArrive(ps);
    MergeSerialized(before, ps);
  }

  // ---------------------------------------------------------------------------------------------
  // Other calls in between
  // ---------------------------------------------------------------------------------------------

  /** One locked access to the table: a received line is merged, or another thread adds a peer, changes the
      one that is there (both Put), or removes it. */
  datatype TableOp = Merge(line: string) | Put(peer: PeerRecord) | Remove(id: string)

  function Access(peers: map<string, PeerRecord>, op: TableOp): map<string, PeerRecord> {
    match op
    case Merge(line) => MergeLine(peers, line)
    case Put(p) => peers[p.id := p]
    case Remove(id) => peers - {id}
  }

  function AccessAll(peers: map<string, PeerRecord>, ops: seq<TableOp>): map<string, PeerRecord>
    decreases |ops|
  {
    if ops == [] then peers else AccessAll(Access(peers, ops[0]), ops[1..])
  }

  /** The id that an access is about; None for a line that cannot be deserialized. */
  function Touched(op: TableOp): Option<string> {
    match op
    case Merge(line) => (match Deserialized(line) case None => None case Some(p) => Some(p.id))
    case Put(p) => Some(p.id)
    case Remove(id) => Some(id)
  }

  function Entry(peers: map<string, PeerRecord>, id: string): Option<PeerRecord> {
    if id in peers then Some(peers[id]) else None
  }

  lemma {:induction false} Untouched(peers: map<string, PeerRecord>, ops: seq<TableOp>, id: string)
    requires forall op | op in ops :: Touched(op) != Some(id)
    ensures Entry(AccessAll(peers, ops), id) == Entry(peers, id)
    decreases |ops|
  {
    if ops != [] {
      assert ops[0] in ops;
      Untouched(Access(peers, ops[0]), ops[1..], id);
    }
  }

  /** Between the additions of a merge other threads may use the table. In any interleaving each id ends up
      as the last access that touches it leaves it: a line of the list that comes last for its peer
      puts that peer in the table as it was received, and an id that nobody touches is as before. */
  lemma {:induction false} LastAccessDecides(peers: map<string, PeerRecord>, ops: seq<TableOp>, op: TableOp,
                                             later: seq<TableOp>, id: string)
    requires Touched(op) == Some(id) && forall other | other in later :: Touched(other) != Some(id)
    ensures Entry(AccessAll(peers, ops + [op] + later), id) ==
            match op
            case Merge(line) => Deserialized(line)
            case Put(p) => Some(p)
            case Remove(_) => None
    decreases |ops|
  {
    hide Deserialized;
    var all := ops + [op] + later;
    if ops == [] {
      assert all[0] == op && all[1..] == later;
      Untouched(Access(peers, op), later, id);
    } else {
      assert all[0] == ops[0] && all[1..] == ops[1..] + [op] + later;
      LastAccessDecides(Access(peers, ops[0]), ops[1..], op, later, id);
    }
  }

  function Merges(lines: seq<string>): (r: seq<TableOp>)
    ensures |r| == |lines|
  {
    seq(|lines|, i requires 0 <= i < |lines| => Merge(lines[i]))
  }

  /** Undisturbed, the merge of a list is the accesses for its lines, one after the other. */
  lemma {:induction false} MergeIsAccesses(peers: map<string, PeerRecord>, lines: seq<string>)
    ensures MergeLines(peers, lines) == AccessAll(peers, Merges(lines))
    decreases |lines|
  {
    hide MergeLine;
    if lines != [] {
      assert Merges(lines)[1..] == Merges(lines[1..]);
      MergeIsAccesses(MergeLine(peers, lines[0]), lines[1..]);
    }
  }

  /** A line that cannot be deserialized makes no difference to what the lines before and after it contribute. */
  lemma {:induction false} BadLineSkipped(peers: map<string, PeerRecord>, a: seq<string>, line: string, b: seq<string>)
    requires Deserialized(line) == None
    ensures MergeLines(peers, a + [line] + b) == MergeLines(peers, a + b)
    decreases |a|
  {
    hide Deserialized;
    if a == [] {
      assert a + [line] + b == [line] + b && ([line] + b)[1..] == b && a + b == b;
    } else {
      assert (a + [line] + b)[1..] == a[1..] + [line] + b && (a + b)[1..] == a[1..] + b;
      BadLineSkipped(MergeLine(peers, a[0]), a[1..], line, b);
    }
  }
}

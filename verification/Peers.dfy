/** src/Peer.cpp: the file list of a peer and its text form. */
module Peers {
  import opened Bytes
  import opened Files
  import opened Text

  // ---------------------------------------------------------------------------------------------
  // The file list
  // ---------------------------------------------------------------------------------------------

  /** The position of the first file of that name, or the length. */
  function FindFile(files: seq<FileInfo>, name: string): (k: nat)
    ensures k <= |files| && (k < |files| ==> files[k].filename == name)
    ensures forall j | 0 <= j < k :: files[j].filename != name
  {
    if files == [] || files[0].filename == name then 0 else 1 + FindFile(files[1..], name)
  }

  predicate HasName(files: seq<FileInfo>, name: string) {
    exists f :: f in files && f.filename == name
  }

  function AddTo(files: seq<FileInfo>, file: FileInfo): seq<FileInfo> {
    var k := FindFile(files, file.filename);
    if k < |files| then files[k := file] else files + [file]
  }

  function Without(files: seq<FileInfo>, name: string): seq<FileInfo> {
    if files == [] then []
    else (if files[0].filename == name then [] else [files[0]]) + Without(files[1..], name)
  }

  ghost predicate DistinctNames(files: seq<FileInfo>) {
    forall i, j | 0 <= i < j < |files| :: files[i].filename != files[j].filename
  }

  // ---------------------------------------------------------------------------------------------
  // The text form
  // ---------------------------------------------------------------------------------------------

  datatype PeerRecord = PeerRecord(id: string, ip: string, port: int, active: bool, files: seq<FileInfo>)

  const BAR: char := '|'

  function FileFields(files: seq<FileInfo>): (r: seq<string>)
    ensures |r| == 3 * |files|
  {
    if files == [] then []
    else [files[0].filename, PrintNat(files[0].size), files[0].hash] + FileFields(files[1..])
  }

  function Fields(p: PeerRecord): (r: seq<string>)
    ensures |r| == 5 + 3 * |p.files|
  {
    [p.id, p.ip, PrintInt(p.port), if p.active then "1" else "0", PrintNat(|p.files|)] + FileFields(p.files)
  }

  function Serialized(p: PeerRecord): string {
    Join(Fields(p), BAR)
  }

  /** The loop of deserialize over the file tokens; None when std::stoul throws. */
  function ReadFiles(tokens: seq<string>, idx: nat, count: nat, files: seq<FileInfo>): Option<seq<FileInfo>>
    decreases count
  {
    if count == 0 || idx + 2 >= |tokens| then Some(files)
    else
      match Stoul(tokens[idx + 1])
      case None => None
      case Some(size) =>
        ReadFiles(tokens, idx + 3, count - 1, AddTo(files, FileInfo(tokens[idx], "", size, tokens[idx + 2], 0)))
  }

  /** Peer::deserialize; None when it throws. */
  function Deserialized(data: string): Option<PeerRecord> {
    FromTokens(Split(data, BAR))
  }

  function FromTokens(tokens: seq<string>): Option<PeerRecord> {
    if |tokens| < 5 then None
    else
      match (Stoi(tokens[2]), Stoul(tokens[4]))
      case (Some(port), Some(count)) =>
        (match ReadFiles(tokens, 5, count, [])
         case None => None
         case Some(files) => Some(PeerRecord(tokens[0], tokens[1], port, tokens[3] == "1", files)))
      case _ => None
  }

  // ---------------------------------------------------------------------------------------------
  // The implementation
  // ---------------------------------------------------------------------------------------------

  /** class Peer. The clock is a parameter; each method is atomic, as under files_mutex. */
  class Peer {
    const peerId: string
    const ipAddress: string
    const port: int
    var sharedFiles: seq<FileInfo>
    var isActive: bool
    var lastSeen: int

    ghost predicate Valid()
      reads this
    {
      DistinctNames(sharedFiles)
    }

    ghost function Record(): PeerRecord
      reads this
    {
      PeerRecord(peerId, ipAddress, port, isActive, sharedFiles)
    }

    constructor (id: string, ip: string, p: int, now: int)
      ensures Valid() && Record() == PeerRecord(id, ip, p, true, []) && lastSeen == now
    {
      peerId, ipAddress, port := id, ip, p;
      sharedFiles, isActive, lastSeen := [], true, now;
    }

    method AddFile(file: FileInfo)
      requires Valid()
      modifies this`sharedFiles
      ensures Valid()
      ensures sharedFiles == AddTo(old(sharedFiles), file)
    {
      var i := 0;
      while i < |sharedFiles| && sharedFiles[i].filename != file.filename
        invariant i <= |sharedFiles|
        invariant forall j | 0 <= j < i :: sharedFiles[j].filename != file.filename
      {
        i := i + 1;
      }
      FoundAt(sharedFiles, file.filename, i);
      AddKeepsDistinct(sharedFiles, file);
      if i < |sharedFiles| {
        sharedFiles := sharedFiles[i := file];
      } else {
        sharedFiles := sharedFiles + [file];
      }
    }

    method RemoveFile(name: string)
      requires Valid()
      modifies this`sharedFiles
      ensures Valid()
      ensures sharedFiles == Without(old(sharedFiles), name)
    {
      var kept: seq<FileInfo> := [];
      var i := 0;
      while i < |sharedFiles|
        invariant i <= |sharedFiles|
        invariant Without(sharedFiles, name) == kept + Without(sharedFiles[i..], name)
      {
        assert sharedFiles[i..][1..] == sharedFiles[i + 1..];
        if sharedFiles[i].filename != name {
          kept := kept + [sharedFiles[i]];
        }
        i := i + 1;
      }
      assert kept == Without(sharedFiles, name);
      hide Without;
      WithoutKeepsDistinct(sharedFiles, name);
      sharedFiles := kept;
    }

    method HasFile(name: string) returns (found: bool)
      ensures found == HasName(sharedFiles, name)
    {
      var i := 0;
      while i < |sharedFiles| && sharedFiles[i].filename != name
        invariant i <= |sharedFiles|
        invariant forall j | 0 <= j < i :: sharedFiles[j].filename != name
      {
        i := i + 1;
      }
      found := i != |sharedFiles|;
      assert found ==> sharedFiles[i] in sharedFiles;
    }

    /** None stands for the exception. */
    method GetFileInfo(name: string) returns (r: Option<FileInfo>)
      requires Valid()
      ensures r.Some? <==> HasName(sharedFiles, name)
      ensures r.Some? ==> r.value in sharedFiles && r.value.filename == name
    {
      var k := FindFile(sharedFiles, name);
      r := if k < |sharedFiles| then Some(sharedFiles[k]) else None;
    }

    method UpdateLastSeen(now: int)
      modifies this`lastSeen
      ensures lastSeen == now
    {
      lastSeen := now;
    }

    method SetActive(active: bool, now: int)
      modifies this`isActive, this`lastSeen
      ensures isActive == active && lastSeen == if active then now else old(lastSeen)
    {
      isActive := active;
      if active {
        UpdateLastSeen(now);
      }
    }

    method Serialize() returns (text: string)
      ensures text == Serialized(Record())
    {
      text := peerId + [BAR] + ipAddress + [BAR] + PrintInt(port) + [BAR] + (if isActive then "1" else "0");
      text := text + [BAR] + PrintNat(|sharedFiles|);
      ghost var head := Fields(Record())[..5];
      HeadJoined(Record());
      assert head + FileFields([]) == head;
      for i := 0 to |sharedFiles|
        invariant text == Join(head + FileFields(sharedFiles[..i]), BAR)
      {
        var file := sharedFiles[i];
        FileFieldsPush(sharedFiles[..i], file);
        assert sharedFiles[..i + 1] == sharedFiles[..i] + [file];
        JoinThree(head + FileFields(sharedFiles[..i]), file.filename, PrintNat(file.size), file.hash);
        assert head + FileFields(sharedFiles[..i + 1]) ==
               head + FileFields(sharedFiles[..i]) + [file.filename, PrintNat(file.size), file.hash];
        text := text + [BAR] + file.filename + [BAR] + PrintNat(file.size) + [BAR] + file.hash;
      }
      assert sharedFiles[..|sharedFiles|] == sharedFiles;
      assert head + FileFields(sharedFiles) == Fields(Record());
    }

    static method Deserialize(data: string, now: int) returns (peer: Peer?)
      ensures peer == null <==> Deserialized(data).None?
      ensures peer != null ==> fresh(peer) && peer.Valid() && Some(peer.Record()) == Deserialized(data)
      ensures peer != null ==> peer.lastSeen == now
    {
      hide Stoi, Stoul, ReadFiles, Split, AddTo, DistinctNames;
      var tokens := Tokenize(data, BAR);
      if |tokens| < 5 {
        return null;
      }
      var port := Stoi(tokens[2]);
      if port.None? {
        return null;
      }
      var p := new Peer(tokens[0], tokens[1], port.value, now);
      p.SetActive(tokens[3] == "1", now);
      var count := Stoul(tokens[4]);
      if count.None? {
        return null;
      }
      var idx, i := 5, 0;
      while i < count.value && idx + 2 < |tokens|
        invariant i <= count.value && fresh(p) && p.Valid() && p.lastSeen == now
        invariant p.isActive == (tokens[3] == "1")
        invariant ReadFiles(tokens, 5, count.value, []) == ReadFiles(tokens, idx, count.value - i, p.sharedFiles)
      {
        ReadFilesStep(tokens, idx, count.value - i, p.sharedFiles);
        var size := Stoul(tokens[idx + 1]);
        if size.None? {
          return null;
        }
        p.AddFile(FileInfo(tokens[idx], "", size.value, tokens[idx + 2], 0));
        idx, i := idx + 3, i + 1;
      }
      ReadFilesEnd(tokens, idx, count.value - i, p.sharedFiles);
      peer := p;
    }
  }

  lemma ReadFilesStep(tokens: seq<string>, idx: nat, count: nat, files: seq<FileInfo>)
    requires count > 0 && idx + 2 < |tokens|
    ensures ReadFiles(tokens, idx, count, files) ==
            match Stoul(tokens[idx + 1])
            case None => None
            case Some(size) =>
              ReadFiles(tokens, idx + 3, count - 1, AddTo(files, FileInfo(tokens[idx], "", size, tokens[idx + 2], 0)))
  {
  }

  lemma ReadFilesEnd(tokens: seq<string>, idx: nat, count: nat, files: seq<FileInfo>)
    requires count == 0 || idx + 2 >= |tokens|
    ensures ReadFiles(tokens, idx, count, files) == Some(files)
  {
  }

  lemma {:induction false} FoundAt(files: seq<FileInfo>, name: string, k: nat)
    requires k <= |files| && (k < |files| ==> files[k].filename == name)
    requires forall j | 0 <= j < k :: files[j].filename != name
    ensures FindFile(files, name) == k
  {
  }

  /** Uniqueness of names survives every addFile and removeFile. */
  lemma AddKeepsDistinct(files: seq<FileInfo>, file: FileInfo)
    requires DistinctNames(files)
    ensures DistinctNames(AddTo(files, file))
  {
  }

  lemma {:induction false} WithoutKeepsDistinct(files: seq<FileInfo>, name: string)
    requires DistinctNames(files)
    ensures DistinctNames(Without(files, name))
    ensures forall f :: f in Without(files, name) <==> f in files && f.filename != name
  {
    if files != [] {
      WithoutKeepsDistinct(files[1..], name);
    }
  }

  /** removeFile keeps the order: it works on each part of a list by itself. */
  lemma {:induction false} WithoutInOrder(files: seq<FileInfo>, f: FileInfo, more: seq<FileInfo>, name: string)
    ensures Without(files + [f] + more, name) ==
            Without(files, name) + (if f.filename == name then [] else [f]) + Without(more, name)
    decreases |files|
  {
    var all := files + [f] + more;
    if files == [] {
      assert all == [f] + more && all[1..] == more;
    } else {
      var rest := files[1..] + [f] + more;
      assert all[0] == files[0] && all[1..] == rest;
      WithoutInOrder(files[1..], f, more, name);
      var head := if files[0].filename == name then [] else [files[0]];
      var a, b, c := Without(files[1..], name), if f.filename == name then [] else [f], Without(more, name);
      assert Without(all, name) == head + Without(rest, name);
      assert Without(files, name) == head + a;
      hide Without;
      assert head + (a + b + c) == head + a + b + c;
    }
  }

  lemma HeadJoined(p: PeerRecord)
    ensures Join(Fields(p)[..5], BAR) ==
            p.id + [BAR] + p.ip + [BAR] + PrintInt(p.port) + [BAR] + (if p.active then "1" else "0")
            + [BAR] + PrintNat(|p.files|)
  {
    hide PrintInt, PrintNat;
    var a, b, c, d, e := p.id, p.ip, PrintInt(p.port), if p.active then "1" else "0", PrintNat(|p.files|);
    assert Fields(p)[..5] == [a] + [b] + [c] + [d] + [e];
    JoinPush([a], b, BAR);
    JoinPush([a] + [b], c, BAR);
    JoinPush([a] + [b] + [c], d, BAR);
    JoinPush([a] + [b] + [c] + [d], e, BAR);
  }

  lemma JoinThree(fields: seq<string>, a: string, b: string, c: string)
    requires fields != []
    ensures Join(fields + [a, b, c], BAR) == Join(fields, BAR) + [BAR] + a + [BAR] + b + [BAR] + c
  {
    assert fields + [a, b, c] == fields + [a] + [b] + [c];
    JoinPush(fields, a, BAR);
    JoinPush(fields + [a], b, BAR);
    JoinPush(fields + [a] + [b], c, BAR);
  }

  lemma {:induction false} FileFieldsPush(files: seq<FileInfo>, f: FileInfo)
    ensures FileFields(files + [f]) == FileFields(files) + [f.filename, PrintNat(f.size), f.hash]
  {
    hide PrintNat;
    if files == [] {
      assert [f][1..] == [];
      assert files + [f] == [f];
    } else {
      assert (files + [f])[1..] == files[1..] + [f];
      FileFieldsPush(files[1..], f);
    }
  }
}

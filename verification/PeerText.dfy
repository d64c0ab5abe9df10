/** What Peer::deserialize recovers from Peer::serialize. */
module PeerText {
  import opened Bytes
  import opened Files
  import opened Text
  import opened Peers
  import opened FileLists

  predicate CleanFile(f: FileInfo) {
    BAR !in f.filename && BAR !in f.hash
  }

  /** No text field contains the delimiter. */
  predicate NoBar(p: PeerRecord) {
    BAR !in p.id && BAR !in p.ip && forall f | f in p.files :: CleanFile(f)
  }

  /** The ranges of the C++ types int and size_t. */
  predicate InRange(p: PeerRecord) {
    -TWO_31 <= p.port < TWO_31 && |p.files| < TWO_64 && forall f | f in p.files :: f.size < TWO_64
  }

  /** The part of a file record that is printed. */
  function Strip(f: FileInfo): FileInfo {
    FileInfo(f.filename, "", f.size, f.hash, 0)
  }

  function StripAll(files: seq<FileInfo>): (r: seq<FileInfo>)
    ensures |r| == |files|
  {
    seq(|files|, i requires 0 <= i < |files| => Strip(files[i]))
  }

  function Stripped(p: PeerRecord): PeerRecord {
    p.(files := StripAll(p.files))
  }

  predicate LastHashed(files: seq<FileInfo>) {
    files == [] || files[|files| - 1].hash != ""
  }

  /** How many files arrive: the last one is lost if its hash, the last field, is empty. */
  function Arriving(files: seq<FileInfo>): (m: nat)
    ensures m <= |files|
  {
    if LastHashed(files) then |files| else |files| - 1
  }

  function Received(p: PeerRecord): PeerRecord {
    p.(files := StripAll(p.files[..Arriving(p.files)]))
  }

  lemma NumberClean(n: int)
    ensures BAR !in PrintInt(n) && '\n' !in PrintInt(n)
  {
    if BAR in PrintInt(n) {
      PrintedHas(n, BAR);
    }
    if '\n' in PrintInt(n) {
      PrintedHas(n, '\n');
    }
  }

  lemma {:induction false} FileFieldsAt(files: seq<FileInfo>, k: nat)
    requires k < |files|
    ensures FileFields(files)[3 * k] == files[k].filename
    ensures FileFields(files)[3 * k + 1] == PrintNat(files[k].size)
    ensures FileFields(files)[3 * k + 2] == files[k].hash
  {
    hide PrintNat;
    if k > 0 {
      FileFieldsAt(files[1..], k - 1);
    }
  }

  lemma FieldsAt(p: PeerRecord, k: nat)
    requires k < |p.files|
    ensures Fields(p)[5 + 3 * k] == p.files[k].filename
    ensures Fields(p)[5 + 3 * k + 1] == PrintNat(p.files[k].size)
    ensures Fields(p)[5 + 3 * k + 2] == p.files[k].hash
  {
    hide FileFields;
    FileFieldsAt(p.files, k);
  }

  /** A delimiter that is in none of the texts is in none of the fields. */
  lemma FieldsAvoid(p: PeerRecord, c: char)
    requires c == BAR || c == '\n'
    requires c !in p.id && c !in p.ip && forall f | f in p.files :: c !in f.filename && c !in f.hash
    ensures forall f | f in Fields(p) :: c !in f
  {
    NumberClean(p.port);
    NumberClean(|p.files|);
    forall f | f in Fields(p)
      ensures c !in f
    {
      var i :| 0 <= i < |Fields(p)| && f == Fields(p)[i];
      if i >= 5 {
        var k := (i - 5) / 3;
        hide Fields;
        FieldsAt(p, k);
        NumberClean(p.files[k].size);
        assert i == 5 + 3 * k || i == 5 + 3 * k + 1 || i == 5 + 3 * k + 2;
      }
    }
  }

  lemma AddNew(files: seq<FileInfo>, k: nat)
    requires k < |files| && DistinctNames(files)
    ensures AddTo(StripAll(files[..k]), Strip(files[k])) == StripAll(files[..k + 1])
  {
    FoundAt(StripAll(files[..k]), files[k].filename, k);
  }

  /** Reading on after k files from the fields of p, cut off after m files. */
  lemma {:induction false} ReadBack(p: PeerRecord, tokens: seq<string>, k: nat, m: nat)
    requires DistinctNames(p.files) && InRange(p) && k <= m <= |p.files|
    requires tokens <= Fields(p) && |tokens| >= 5 + 3 * m
    requires m == |p.files| || |tokens| <= 5 + 3 * m + 2
    ensures ReadFiles(tokens, 5 + 3 * k, |p.files| - k, StripAll(p.files[..k])) == Some(StripAll(p.files[..m]))
    decreases m - k
  {
    hide ReadFiles, Fields, StripAll, Stoul, PrintNat, AddTo, DistinctNames;
    var idx := 5 + 3 * k;
    if k == m {
      ReadFilesEnd(tokens, idx, |p.files| - k, StripAll(p.files[..k]));
    } else {
      ReadFilesStep(tokens, idx, |p.files| - k, StripAll(p.files[..k]));
      FieldsAt(p, k);
      assert p.files[k] in p.files;
      NumberRoundTrip(p.files[k].size, 0);
      AddNew(p.files, k);
      ReadBack(p, tokens, k + 1, m);
    }
  }

  lemma TokensRead(p: PeerRecord, tokens: seq<string>)
    requires DistinctNames(p.files) && InRange(p)
    requires tokens == if LastHashed(p.files) then Fields(p) else Fields(p)[..|Fields(p)| - 1]
    ensures FromTokens(tokens) == Some(Received(p))
  {
    hide ReadFiles, FileFields, Stoi, Stoul, PrintInt, PrintNat, DistinctNames;
    assert p.files[..0] == [] && StripAll([]) == [];
    ReadBack(p, tokens, 0, Arriving(p.files));
    NumberRoundTrip(0, p.port);
    NumberRoundTrip(|p.files|, 0);
    assert tokens[2] == PrintInt(p.port) && tokens[4] == PrintNat(|p.files|);
    assert tokens[3] == if p.active then "1" else "0";
  }

  lemma LastField(p: PeerRecord)
    ensures Fields(p)[|Fields(p)| - 1] == if p.files == [] then PrintNat(0) else p.files[|p.files| - 1].hash
  {
    if p.files != [] {
      FieldsAt(p, |p.files| - 1);
    }
  }

  /** With no delimiter in a text field everything printed is recovered, except that the last file is
      lost exactly when its hash is empty. */
  lemma ReceivedText(p: PeerRecord)
    requires DistinctNames(p.files) && InRange(p) && NoBar(p)
    ensures Deserialized(Serialized(p)) == Some(Received(p))
  {
    FieldsAvoid(p, BAR);
    SplitJoin(Fields(p), BAR);
    LastField(p);
    PrintNatDigits(0);
    hide Fields, FromTokens, Received, Split, PrintNat, NoBar, InRange, DistinctNames;
    TokensRead(p, Split(Serialized(p), BAR));
  }

  lemma {:induction false} ReadFilesClean(tokens: seq<string>, idx: nat, count: nat, files: seq<FileInfo>)
    requires (forall t | t in tokens :: BAR !in t) && (forall f | f in files :: CleanFile(f))
    ensures var r := ReadFiles(tokens, idx, count, files); r.Some? ==> forall f | f in r.value :: CleanFile(f)
    decreases count
  {
    hide Stoul;
    if count > 0 && idx + 2 < |tokens| && Stoul(tokens[idx + 1]).Some? {
      var f := FileInfo(tokens[idx], "", Stoul(tokens[idx + 1]).value, tokens[idx + 2], 0);
      assert CleanFile(f);
      ReadFilesClean(tokens, idx + 3, count - 1, AddTo(files, f));
    }
  }

  lemma DeserializedClean(data: string)
    ensures Deserialized(data).Some? ==> NoBar(Deserialized(data).value)
  {
    SplitClean(data, BAR);
    var tokens := Split(data, BAR);
    hide Stoi, Stoul, ReadFiles, Split;
    if |tokens| >= 5 && Stoul(tokens[4]).Some? {
      ReadFilesClean(tokens, 5, Stoul(tokens[4]).value, []);
    }
  }

  /** Everything printed is recovered if and only if no text field contains the delimiter
      and the last file, if there is one, has a hash. */
  lemma TextRoundTrip(p: PeerRecord)
    requires DistinctNames(p.files) && InRange(p)
    ensures Deserialized(Serialized(p)) == Some(Stripped(p)) <==> NoBar(p) && LastHashed(p.files)
  {
    hide Deserialized, Serialized, InRange, DistinctNames;
    if NoBar(p) {
      ReceivedText(p);
      assert p.files[..|p.files|] == p.files;
    } else if Deserialized(Serialized(p)) == Some(Stripped(p)) {
      DeserializedClean(Serialized(p));
      StrippedClean(p);
      assert false;
    }
  }

  lemma StrippedClean(p: PeerRecord)
    requires NoBar(Stripped(p))
    ensures NoBar(p)
  {
    forall f | f in p.files
      ensures CleanFile(f)
    {
      var i :| 0 <= i < |p.files| && f == p.files[i];
      assert StripAll(p.files)[i] in StripAll(p.files);
    }
  }

  // ---------------------------------------------------------------------------------------------
  // Any input
  // ---------------------------------------------------------------------------------------------

  /** The first m file records of the tokens from idx on, three tokens each. */
  function FilesAt(tokens: seq<string>, idx: nat, m: nat): (r: seq<FileInfo>)
    requires idx + 3 * m <= |tokens| && SizesRead(tokens, idx, m)
    ensures |r| == m
  {
    seq(m, k requires 0 <= k < m =>
      FileInfo(tokens[idx + 3 * k], "", Stoul(tokens[idx + 3 * k + 1]).value, tokens[idx + 3 * k + 2], 0))
  }

  /** How many file records deserialize reads: no more than counted, and only complete ones. */
  function FilesRead(tokens: seq<string>, idx: nat, count: nat): (m: nat)
    requires idx <= |tokens|
    ensures idx + 3 * m <= |tokens|
  {
    var complete := (|tokens| - idx) / 3;
    if count < complete then count else complete
  }

  /** Their sizes are all numbers. */
  predicate SizesRead(tokens: seq<string>, idx: nat, m: nat)
    requires idx + 3 * m <= |tokens|
  {
    forall k | 0 <= k < m :: Stoul(tokens[idx + 3 * k + 1]).Some?
  }

  lemma FilesReadStep(tokens: seq<string>, idx: nat, count: nat)
    requires idx <= |tokens|
    ensures var m := FilesRead(tokens, idx, count);
            && idx + 3 * m <= |tokens|
            && (m == 0 <==> count == 0 || idx + 2 >= |tokens|)
            && (m > 0 ==> FilesRead(tokens, idx + 3, count - 1) == m - 1)
  {
  }

  lemma SizesReadStep(tokens: seq<string>, idx: nat, m: nat)
    requires 0 < m && idx + 3 * m <= |tokens|
    ensures SizesRead(tokens, idx, m) <==> Stoul(tokens[idx + 1]).Some? && SizesRead(tokens, idx + 3, m - 1)
  {
    hide Stoul;
    if Stoul(tokens[idx + 1]).Some? && SizesRead(tokens, idx + 3, m - 1) {
      forall k | 0 <= k < m
        ensures Stoul(tokens[idx + 3 * k + 1]).Some?
      {
        if k > 0 {
          assert Stoul(tokens[idx + 3 + 3 * (k - 1) + 1]).Some?;
        }
      }
    }
    if SizesRead(tokens, idx, m) {
      assert Stoul(tokens[idx + 3 * 0 + 1]).Some?;
      forall k | 0 <= k < m - 1
        ensures Stoul(tokens[idx + 3 + 3 * k + 1]).Some?
      {
        assert Stoul(tokens[idx + 3 * (k + 1) + 1]).Some?;
      }
    }
  }

  lemma FilesAtStep(tokens: seq<string>, idx: nat, m: nat, before: seq<FileInfo>)
    requires 0 < m && idx + 3 * m <= |tokens|
    requires SizesRead(tokens, idx, m) && SizesRead(tokens, idx + 3, m - 1) && Stoul(tokens[idx + 1]).Some?
    ensures var f := FileInfo(tokens[idx], "", Stoul(tokens[idx + 1]).value, tokens[idx + 2], 0);
            before + FilesAt(tokens, idx, m) == before + [f] + FilesAt(tokens, idx + 3, m - 1)
  {
    hide Stoul;
    var f := FileInfo(tokens[idx], "", Stoul(tokens[idx + 1]).value, tokens[idx + 2], 0);
    var all, rest := FilesAt(tokens, idx, m), FilesAt(tokens, idx + 3, m - 1);
    forall k | 0 <= k < m
      ensures all[k] == ([f] + rest)[k]
    {
      if k > 0 {
        assert idx + 3 * k == idx + 3 + 3 * (k - 1);
      }
    }
    assert all == [f] + rest;
  }

  ghost predicate ReadsExactly(tokens: seq<string>, idx: nat, count: nat, m: nat, before: seq<FileInfo>)
    requires idx + 3 * m <= |tokens|
  {
    ReadFiles(tokens, idx, count, AddAll(before)) ==
    if SizesRead(tokens, idx, m) then Some(AddAll(before + FilesAt(tokens, idx, m))) else None
  }

  lemma ReadsNone(tokens: seq<string>, idx: nat, count: nat, before: seq<FileInfo>)
    requires idx <= |tokens| && (count == 0 || idx + 2 >= |tokens|)
    ensures ReadsExactly(tokens, idx, count, 0, before)
  {
    hide AddAll, Stoul, ReadFiles;
    ReadFilesEnd(tokens, idx, count, AddAll(before));
    assert before + FilesAt(tokens, idx, 0) == before;
  }

  lemma ReadsOneMore(tokens: seq<string>, idx: nat, count: nat, m: nat, before: seq<FileInfo>)
    requires 0 < m && 0 < count && idx + 3 * m <= |tokens|
    requires Stoul(tokens[idx + 1]).Some? ==>
      ReadsExactly(tokens, idx + 3, count - 1, m - 1,
                   before + [FileInfo(tokens[idx], "", Stoul(tokens[idx + 1]).value, tokens[idx + 2], 0)])
    ensures ReadsExactly(tokens, idx, count, m, before)
  {
    hide AddAll, AddTo, Stoul, ReadFiles, SizesRead, FilesAt;
    ReadFilesStep(tokens, idx, count, AddAll(before));
    SizesReadStep(tokens, idx, m);
    var size := Stoul(tokens[idx + 1]);
    if size.Some? {
      AddAllPush(before, FileInfo(tokens[idx], "", size.value, tokens[idx + 2], 0));
      if SizesRead(tokens, idx, m) {
        FilesAtStep(tokens, idx, m, before);
      }
    }
  }

  lemma {:induction false} ReadFilesExactly(tokens: seq<string>, idx: nat, count: nat, before: seq<FileInfo>)
    requires idx <= |tokens|
    ensures ReadsExactly(tokens, idx, count, FilesRead(tokens, idx, count), before)
    decreases count
  {
    hide Stoul, FilesRead, ReadsExactly;
    FilesReadStep(tokens, idx, count);
    var m := FilesRead(tokens, idx, count);
    if m == 0 {
      ReadsNone(tokens, idx, count, before);
    } else {
      var size := Stoul(tokens[idx + 1]);
      if size.Some? {
        ReadFilesExactly(tokens, idx + 3, count - 1,
                         before + [FileInfo(tokens[idx], "", size.value, tokens[idx + 2], 0)]);
      }
      ReadsOneMore(tokens, idx, count, m, before);
    }
  }

  lemma AddAllPush(files: seq<FileInfo>, f: FileInfo)
    ensures AddAll(files + [f]) == AddTo(AddAll(files), f)
  {
    assert (files + [f])[..|files|] == files;
  }

  /** What deserialize makes of any text. It throws exactly on fewer than five tokens, on a port that is no int,
      on a count that is no number, and on a file size that is no number among the files it reads: as many as
      counted, or as have all three tokens. Otherwise it takes id, address, port, flag and files from their
      tokens, the files added one by one. */
  lemma DeserializedExactly(data: string)
    ensures var tokens := Split(data, BAR);
            Deserialized(data) ==
            if |tokens| < 5 || Stoi(tokens[2]).None? || Stoul(tokens[4]).None? then None
            else
              var m := FilesRead(tokens, 5, Stoul(tokens[4]).value);
              if !SizesRead(tokens, 5, m) then None
              else Some(PeerRecord(tokens[0], tokens[1], Stoi(tokens[2]).value, tokens[3] == "1",
                                   AddAll(FilesAt(tokens, 5, m))))
  {
    var tokens := Split(data, BAR);
    hide Stoi, Stoul, ReadFiles, FilesAt, FilesRead, SizesRead, AddTo, Split;
    if |tokens| >= 5 && Stoul(tokens[4]).Some? {
      var m := FilesRead(tokens, 5, Stoul(tokens[4]).value);
      ReadFilesExactly(tokens, 5, Stoul(tokens[4]).value, []);
      if SizesRead(tokens, 5, m) {
        assert [] + FilesAt(tokens, 5, m) == FilesAt(tokens, 5, m);
      }
    }
  }

  lemma AllFieldsRead(p: PeerRecord)
    requires NoBar(p) && LastHashed(p.files)
    ensures Split(Serialized(p), BAR) == Fields(p)
  {
    FieldsAvoid(p, BAR);
    SplitJoin(Fields(p), BAR);
    LastField(p);
    PrintNatDigits(0);
    hide Fields, Split, PrintNat, NoBar;
  }

  /** The text of a peer, field by field. */
  lemma SerializedFields(p: PeerRecord, k: nat)
    requires NoBar(p) && LastHashed(p.files)
    ensures var tokens := Split(Serialized(p), BAR);
            && |tokens| == 5 + 3 * |p.files|
            && tokens[0] == p.id && tokens[1] == p.ip && tokens[2] == PrintInt(p.port)
            && tokens[3] == (if p.active then "1" else "0") && tokens[4] == PrintNat(|p.files|)
            && (k < |p.files| ==>
                  && tokens[5 + 3 * k] == p.files[k].filename && tokens[5 + 3 * k + 1] == PrintNat(p.files[k].size)
                  && tokens[5 + 3 * k + 2] == p.files[k].hash)
  {
    hide Split, Serialized, PrintNat, PrintInt, FileFields, NoBar;
    AllFieldsRead(p);
    if k < |p.files| {
      FieldsAt(p, k);
    }
  }
}

/** The list that PeerManager::updatePeerFileList builds: files added one by one to an empty list. */
module FileLists {
  import opened Files
  import opened Peers

  function AddAll(files: seq<FileInfo>): seq<FileInfo> {
    if files == [] then [] else AddTo(AddAll(files[..|files| - 1]), files[|files| - 1])
  }

  /** The position of the last file of that name. */
  function LastFile(files: seq<FileInfo>, name: string): (k: nat)
    requires HasName(files, name)
    ensures k < |files| && files[k].filename == name
    ensures forall j | k < j < |files| :: files[j].filename != name
  {
    var n := |files| - 1;
    if files[n].filename == name then n
    else
      assert forall f | f in files && f.filename == name :: f in files[..n];
      LastFile(files[..n], name)
  }

  lemma HasNameAt(files: seq<FileInfo>, name: string)
    ensures HasName(files, name) <==> FindFile(files, name) < |files|
  {
    var k := FindFile(files, name);
    if k < |files| {
      assert files[k] in files;
    }
  }

  lemma FindPush(files: seq<FileInfo>, f: FileInfo, name: string)
    ensures FindFile(files + [f], name) == if HasName(files, name) then FindFile(files, name)
                                           else if f.filename == name then |files| else |files| + 1
    ensures HasName(files + [f], name) <==> HasName(files, name) || f.filename == name
  {
    HasNameAt(files, name);
    HasNameAt(files + [f], name);
    var k := if HasName(files, name) then FindFile(files, name)
             else if f.filename == name then |files| else |files| + 1;
    FoundAt(files + [f], name, k);
  }

  lemma LastPush(files: seq<FileInfo>, f: FileInfo, name: string)
    requires HasName(files + [f], name)
    ensures f.filename == name ==> LastFile(files + [f], name) == |files|
    ensures f.filename != name ==> HasName(files, name) && LastFile(files + [f], name) == LastFile(files, name)
  {
    assert (files + [f])[..|files|] == files;
    FindPush(files, f, name);
  }

  /** The list has the names of the input in the order in which they first occur there, once each,
      and with each name its last record. */
  ghost predicate Summarizes(list: seq<FileInfo>, files: seq<FileInfo>) {
    && (forall name :: HasName(list, name) <==> HasName(files, name))
    && (forall i, j | 0 <= i < j < |list| :: FindFile(files, list[i].filename) < FindFile(files, list[j].filename))
    && (forall i | 0 <= i < |list| ::
          HasName(files, list[i].filename) && list[i] == files[LastFile(files, list[i].filename)])
  }

  lemma NamedOnce(list: seq<FileInfo>, files: seq<FileInfo>, i: nat)
    requires Summarizes(list, files) && i < |list|
    ensures FindFile(list, list[i].filename) == i
  {
    var k := FindFile(list, list[i].filename);
    assert k <= i;
  }

  lemma EntryPush(list: seq<FileInfo>, files: seq<FileInfo>, f: FileInfo, i: nat)
    requires Summarizes(list, files) && i < |AddTo(list, f)|
    ensures var name := AddTo(list, f)[i].filename; var files' := files + [f];
            && HasName(files', name)
            && AddTo(list, f)[i] == files'[LastFile(files', name)]
            && FindFile(files', name) == (if i < |list| then FindFile(files, list[i].filename) else |files|)
            && (i < |list| ==> FindFile(files, list[i].filename) < |files|)
  {
    var name := AddTo(list, f)[i].filename;
    HasNameAt(list, f.filename);
    HasNameAt(files, name);
    FindPush(files, f, name);
    LastPush(files, f, name);
    if i < |list| && list[i].filename == f.filename {
      NamedOnce(list, files, i);
    }
  }

  lemma SummarizesPush(list: seq<FileInfo>, files: seq<FileInfo>, f: FileInfo)
    requires Summarizes(list, files)
    ensures Summarizes(AddTo(list, f), files + [f])
  {
    var list', files' := AddTo(list, f), files + [f];
    assert |list| <= |list'| <= |list| + 1;
    hide AddTo, FindFile, LastFile, HasName;
    forall i: nat | i < |list'| {
      EntryPush(list, files, f, i);
    }
    forall name
      ensures HasName(list', name) <==> HasName(files', name)
    {
      FindPush(files, f, name);
      AddHas(list, f, name);
    }
  }

  lemma AddHas(list: seq<FileInfo>, f: FileInfo, name: string)
    ensures HasName(AddTo(list, f), name) <==> HasName(list, name) || f.filename == name
  {
    var k := FindFile(list, f.filename);
    if k < |list| {
      var list' := list[k := f];
      assert list'[k] in list';
      forall g | g in list
        ensures HasName(list', g.filename)
      {
        var i :| 0 <= i < |list| && list[i] == g;
        assert list'[i] in list' && list'[i].filename == g.filename;
      }
      forall g | g in list'
        ensures g.filename == f.filename || HasName(list, g.filename)
      {
      }
    } else {
      FindPush(list, f, name);
    }
  }

  /** Adding files one by one summarizes them, whatever the names in the input. */
  lemma {:induction false} AddAllSummarizes(files: seq<FileInfo>)
    ensures Summarizes(AddAll(files), files) && DistinctNames(AddAll(files))
    decreases |files|
  {
    if files != [] {
      var n := |files| - 1;
      AddAllSummarizes(files[..n]);
      SummarizesPush(AddAll(files[..n]), files[..n], files[n]);
      assert files == files[..n] + [files[n]];
    }
  }

  datatype FileOp = Add(file: FileInfo) | Remove(name: string)

  function Perform(files: seq<FileInfo>, op: FileOp): seq<FileInfo> {
    match op
    case Add(f) => AddTo(files, f)
    case Remove(name) => Without(files, name)
  }

  function PerformAll(files: seq<FileInfo>, ops: seq<FileOp>): seq<FileInfo>
    decreases |ops|
  {
    if ops == [] then files else PerformAll(Perform(files, ops[0]), ops[1..])
  }

  function NameOf(op: FileOp): string {
    match op
    case Add(f) => f.filename
    case Remove(name) => name
  }

  /** The operation alone decides the record of its name and keeps the records of all other names. */
  lemma PerformOne(files: seq<FileInfo>, op: FileOp, g: FileInfo)
    requires DistinctNames(files)
    ensures var r := Perform(files, op);
            && DistinctNames(r)
            && (g.filename != NameOf(op) ==> (g in r <==> g in files))
            && (g.filename == NameOf(op) ==> (g in r <==> op == Add(g)))
  {
    match op
    case Add(f) =>
      AddKeepsDistinct(files, f);
      var k, r := FindFile(files, f.filename), AddTo(files, f);
      assert r[k] == f;
      assert g in files && g.filename != f.filename ==> exists i :: 0 <= i < |files| && i != k && files[i] == g && r[i] == g;
    case Remove(name) => WithoutKeepsDistinct(files, name);
  }

  /** Names stay unique in every sequence of atomic addFile and removeFile calls, however they interleave, and
      a record that no call names is listed if and only if it was. */
  lemma {:induction false} AnyCalls(files: seq<FileInfo>, ops: seq<FileOp>, g: FileInfo)
    requires DistinctNames(files)
    ensures DistinctNames(PerformAll(files, ops))
    ensures (forall op | op in ops :: NameOf(op) != g.filename) ==> (g in PerformAll(files, ops) <==> g in files)
    decreases |ops|
  {
    if ops != [] {
      hide Perform, NameOf, DistinctNames;
      PerformOne(files, ops[0], g);
      AnyCalls(Perform(files, ops[0]), ops[1..], g);
    }
  }

  lemma {:induction false} PerformAppend(files: seq<FileInfo>, ops: seq<FileOp>, later: seq<FileOp>)
    ensures PerformAll(files, ops + later) == PerformAll(PerformAll(files, ops), later)
    decreases |ops|
  {
    hide Perform;
    if ops == [] {
      assert ops + later == later;
    } else {
      assert (ops + later)[1..] == ops[1..] + later;
      PerformAppend(Perform(files, ops[0]), ops[1..], later);
    }
  }

  /** Whatever the interleaving, the last call that names a file decides whether it is listed and with
      which record, however many calls for other names follow. */
  lemma AnyInterleaving(files: seq<FileInfo>, ops: seq<FileOp>, op: FileOp, later: seq<FileOp>, g: FileInfo)
    requires DistinctNames(files)
    requires forall other | other in later :: NameOf(other) != NameOf(op)
    ensures var r := PerformAll(files, ops + [op] + later);
            DistinctNames(r) && (g.filename == NameOf(op) ==> (g in r <==> op == Add(g)))
  {
    hide Perform, NameOf, DistinctNames;
    PerformAppend(files, ops + [op], later);
    PerformAppend(files, ops, [op]);
    var before := PerformAll(files, ops);
    assert [op][1..] == [] && PerformAll(before, [op]) == Perform(before, op);
    AnyCalls(files, ops, g);
    PerformOne(before, op, g);
    AnyCalls(Perform(before, op), later, g);
  }

  // ---------------------------------------------------------------------------------------------
  // Two updates of one peer at the same time
  // ---------------------------------------------------------------------------------------------

  /** The calls of updatePeerFileList that saw the list seen: it removes these names, then adds its files. */
  function UpdateOps(seen: seq<FileInfo>, files: seq<FileInfo>): (r: seq<FileOp>)
    ensures |r| == |seen| + |files|
  {
    Removals(seen) + Additions(files)
  }

  function Removals(seen: seq<FileInfo>): (r: seq<FileOp>)
    ensures |r| == |seen|
  {
    seq(|seen|, i requires 0 <= i < |seen| => Remove(seen[i].filename))
  }

  function Additions(files: seq<FileInfo>): (r: seq<FileOp>)
    ensures |r| == |files|
  {
    seq(|files|, i requires 0 <= i < |files| => Add(files[i]))
  }

  /** ops interleaves a and b, each in its own order. */
  ghost predicate Interleaves(ops: seq<FileOp>, a: seq<FileOp>, b: seq<FileOp>)
    decreases |ops|
  {
    if ops == [] then a == [] && b == []
    else
      || (a != [] && ops[0] == a[0] && Interleaves(ops[1..], a[1..], b))
      || (b != [] && ops[0] == b[0] && Interleaves(ops[1..], a, b[1..]))
  }

  lemma {:induction false} InterleavedOps(ops: seq<FileOp>, a: seq<FileOp>, b: seq<FileOp>, op: FileOp)
    requires Interleaves(ops, a, b)
    ensures op in ops <==> op in a || op in b
    decreases |ops|
  {
    if ops != [] {
      if a != [] && ops[0] == a[0] && Interleaves(ops[1..], a[1..], b) {
        InterleavedOps(ops[1..], a[1..], b, op);
        assert a == [a[0]] + a[1..];
      } else {
        InterleavedOps(ops[1..], a, b[1..], op);
        assert b == [b[0]] + b[1..];
      }
      assert ops == [ops[0]] + ops[1..];
    }
  }

  /** When every old name is removed at some point, only records that were added are left. */
  lemma {:induction false} OnlyAdded(files: seq<FileInfo>, ops: seq<FileOp>, g: FileInfo)
    requires DistinctNames(files)
    requires g in files ==> Add(g) in ops || Remove(g.filename) in ops
    ensures g in PerformAll(files, ops) ==> Add(g) in ops
    decreases |ops|
  {
    if ops != [] {
      hide Perform, DistinctNames;
      PerformOne(files, ops[0], g);
      assert ops == [ops[0]] + ops[1..];
      if Add(g) !in ops {
        OnlyAdded(Perform(files, ops[0]), ops[1..], g);
      }
    }
  }

  lemma {:induction false} AdditionsAdd(files: seq<FileInfo>)
    ensures PerformAll([], Additions(files)) == AddAll(files)
    decreases |files|
  {
    hide AddTo;
    if files != [] {
      var n := |files| - 1;
      assert Additions(files) == Additions(files[..n]) + [Add(files[n])];
      AdditionsAdd(files[..n]);
      PerformAppend([], Additions(files[..n]), [Add(files[n])]);
      assert [Add(files[n])][1..] == [];
    }
  }

  lemma RemovalsEmpty(files: seq<FileInfo>)
    requires DistinctNames(files)
    ensures PerformAll(files, Removals(files)) == []
  {
    var r := PerformAll(files, Removals(files));
    if r != [] {
      var g := r[0];
      if g in files {
        var i :| 0 <= i < |files| && files[i] == g;
        assert Removals(files)[i] == Remove(g.filename);
      }
      OnlyAdded(files, Removals(files), g);
      assert false;
    }
  }

  /** An update that nothing interferes with builds the list from its own files alone. */
  lemma UpdateAlone(initial: seq<FileInfo>, files: seq<FileInfo>)
    requires DistinctNames(initial)
    ensures PerformAll(initial, UpdateOps(initial, files)) == AddAll(files)
  {
    PerformAppend(initial, Removals(initial), Additions(files));
    RemovalsEmpty(initial);
    AdditionsAdd(files);
  }

  /** What two updates of one peer, of which the first to start saw the list as it was, leave in any
      interleaving: distinct names, and only records that one of them brought. */
  lemma InterleavedUpdates(initial: seq<FileInfo>, seen: seq<FileInfo>, a: seq<FileInfo>, b: seq<FileInfo>, ops: seq<FileOp>)
    requires DistinctNames(initial) && Interleaves(ops, UpdateOps(initial, a), UpdateOps(seen, b))
    ensures var r := PerformAll(initial, ops);
            DistinctNames(r) && forall g | g in r :: g in a || g in b
  {
    var first, second := UpdateOps(initial, a), UpdateOps(seen, b);
    forall g | g in PerformAll(initial, ops)
      ensures g in a || g in b
    {
      InterleavedOps(ops, first, second, Remove(g.filename));
      InterleavedOps(ops, first, second, Add(g));
      if g in initial {
        var i :| 0 <= i < |initial| && initial[i] == g;
        assert first[i] == Remove(g.filename);
      }
      OnlyAdded(initial, ops, g);
      AddedBy(initial, a, g);
      AddedBy(seen, b, g);
    }
    AnyCalls(initial, ops, FileInfo("", "", 0, "", 0));
  }

  lemma AddedBy(seen: seq<FileInfo>, files: seq<FileInfo>, g: FileInfo)
    ensures Add(g) in UpdateOps(seen, files) <==> g in files
  {
    var ops := UpdateOps(seen, files);
    if Add(g) in ops {
      var i :| 0 <= i < |ops| && ops[i] == Add(g);
    }
    if g in files {
      var i :| 0 <= i < |files| && files[i] == g;
      assert ops[|seen| + i] == Add(g);
    }
  }
}

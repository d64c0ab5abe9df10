/** src/PeerManager.cpp: the table of known peers. Clock readings and the outcomes of contacts are parameters or
    arbitrary. Each method says what it does when nothing comes in between. AddPeer, RemovePeer,
    RemoveStalePeers and the queries hold peers_mutex throughout. UpdatePeerFileList shares it with other readers:
    FileLists.InterleavedUpdates says what two such updates leave. ConnectToBootstrapNodes takes it once for
    each peer: Exchange.LastAccessDecides says what other threads can do to the result. BroadcastPeerDiscovery
    makes its contacts without it: module Heartbeat interleaves them with everything else. */
module PeerManagers {
  import opened Bytes
  import opened Files
  import opened Peers
  import opened FileLists
  import Exchange
  import Heartbeat
  import PeerText
  import Protocol

  /** What came of trying to reach a peer, and the time at the end of it. */
  datatype Outcome = Outcome(answered: bool, now: int)

  ghost function Presence(peer: Peer): Heartbeat.Presence
    reads peer
  {
    Heartbeat.Presence(peer.isActive, peer.lastSeen)
  }

  /** The merge of one reply from each bootstrap node; None where the node could not be reached. */
  function MergeReplies(peers: map<string, PeerRecord>, replies: seq<Option<seq<bv8>>>): map<string, PeerRecord>
    decreases |replies|
  {
    if replies == [] then peers else MergeReplies(MergeReply(peers, replies[0]), replies[1..])
  }

  function MergeReply(peers: map<string, PeerRecord>, reply: Option<seq<bv8>>): map<string, PeerRecord> {
    match reply
    case None => peers
    case Some(response) =>
      (match Exchange.PeerLines(response)
       case None => peers
       case Some(lines) => Exchange.MergeLines(peers, lines))
  }

  lemma {:induction false} MergeRepliesAppend(peers: map<string, PeerRecord>,
                                              a: seq<Option<seq<bv8>>>, b: seq<Option<seq<bv8>>>)
    ensures MergeReplies(peers, a + b) == MergeReplies(MergeReplies(peers, a), b)
    decreases |a|
  {
    hide MergeReply;
    if a == [] {
      assert a + b == b;
    } else {
      assert (a + b)[1..] == a[1..] + b;
      MergeRepliesAppend(MergeReply(peers, a[0]), a[1..], b);
    }
  }

  /** A node that cannot be reached, and one that answers with anything but a peer list, makes no difference to
      what the nodes before and after it contribute. */
  lemma FailedNodeSkipped(peers: map<string, PeerRecord>, a: seq<Option<seq<bv8>>>, reply: Option<seq<bv8>>,
                          b: seq<Option<seq<bv8>>>)
    requires reply == None || reply.value == [] || reply.value[0] != Protocol.PEER_LIST_RESPONSE
    ensures MergeReplies(peers, a + [reply] + b) == MergeReplies(peers, a + b)
  {
    var table := MergeReplies(peers, a);
    assert MergeReply(table, reply) == table;
    hide MergeReply;
    assert a + [reply] + b == a + ([reply] + b) && ([reply] + b)[1..] == b;
    MergeRepliesAppend(peers, a, [reply] + b);
    MergeRepliesAppend(peers, a, b);
  }

  /** The reply has a line that gives a peer of that id. */
  ghost predicate Names(reply: Option<seq<bv8>>, id: string) {
    && reply.Some? && Exchange.PeerLines(reply.value).Some?
    && exists line :: line in Exchange.PeerLines(reply.value).value
                      && Deserialized(line).Some? && Deserialized(line).value.id == id
  }

  lemma {:induction false} LinesLeave(peers: map<string, PeerRecord>, lines: seq<string>, id: string)
    requires forall line | line in lines :: Deserialized(line).Some? ==> Deserialized(line).value.id != id
    ensures Exchange.Entry(Exchange.MergeLines(peers, lines), id) == Exchange.Entry(peers, id)
    decreases |lines|
  {
    hide Deserialized;
    if lines != [] {
      assert lines[0] in lines;
      LinesLeave(Exchange.MergeLine(peers, lines[0]), lines[1..], id);
    }
  }

  /** An id that no reply names keeps its entry. */
  lemma {:induction false} RepliesLeave(peers: map<string, PeerRecord>, replies: seq<Option<seq<bv8>>>, id: string)
    requires forall reply | reply in replies :: !Names(reply, id)
    ensures Exchange.Entry(MergeReplies(peers, replies), id) == Exchange.Entry(peers, id)
    decreases |replies|
  {
    hide Deserialized, Exchange.PeerLines;
    if replies != [] {
      var reply := replies[0];
      assert !Names(reply, id);
      if reply.Some? && Exchange.PeerLines(reply.value).Some? {
        LinesLeave(peers, Exchange.PeerLines(reply.value).value, id);
      }
      hide Names;
      RepliesLeave(MergeReply(peers, reply), replies[1..], id);
    }
  }

  function Answer(ps: seq<PeerRecord>): Option<seq<bv8>> {
    Some(Exchange.Reply(Protocol.PEER_LIST_RESPONSE, Exchange.PrintPeers(ps)))
  }

  lemma AnswerMerged(before: map<string, PeerRecord>, ps: seq<PeerRecord>, i: nat)
    requires Exchange.DistinctIds(ps) && IsText(Exchange.PrintPeers(ps)) && i < |ps|
    requires forall p | p in ps :: Exchange.Exchangeable(p) && DistinctNames(p.files)
    ensures Exchange.Entry(MergeReply(before, Answer(ps)), ps[i].id) == Some(PeerText.Received(ps[i]))
  {
    Exchange.PeerListExchange(before, ps);
    hide Exchange.Exchangeable, DistinctNames, Exchange.PeerLines, PeerText.Received, Exchange.MergeLines, Exchange.Reply,
      Exchange.PrintPeers;
  }

  lemma Regroup<T>(a: seq<T>, x: T, b: seq<T>)
    ensures a + [x] + b == a + ([x] + b)
  {
  }

  lemma MergeRepliesStep(peers: map<string, PeerRecord>, reply: Option<seq<bv8>>, b: seq<Option<seq<bv8>>>)
    ensures MergeReplies(peers, [reply] + b) == MergeReplies(MergeReply(peers, reply), b)
  {
    hide MergeReply;
    assert ([reply] + b)[1..] == b;
  }

  /** Wherever in the list a node answers, and whatever became of the other nodes, each peer it printed is in
      the table in the end as it is received, unless a later node names its id as well. */
  lemma AnswerArrives(peers: map<string, PeerRecord>, a: seq<Option<seq<bv8>>>, ps: seq<PeerRecord>,
                      b: seq<Option<seq<bv8>>>, i: nat)
    requires Exchange.DistinctIds(ps) && IsText(Exchange.PrintPeers(ps)) && i < |ps|
    requires forall p | p in ps :: Exchange.Exchangeable(p) && DistinctNames(p.files)
    requires forall reply | reply in b :: !Names(reply, ps[i].id)
    ensures Exchange.Entry(MergeReplies(peers, a + [Answer(ps)] + b), ps[i].id) == Some(PeerText.Received(ps[i]))
  {
    hide *;
    var before := MergeReplies(peers, a);
    AnswerMerged(before, ps, i);
    Regroup(a, Answer(ps), b);
    MergeRepliesAppend(peers, a, [Answer(ps)] + b);
    MergeRepliesStep(before, Answer(ps), b);
    RepliesLeave(MergeReply(before, Answer(ps)), b, ps[i].id);
  }

  class PeerManager {
    var peers: map<string, Peer>

    ghost predicate Valid()
      reads this, peers.Values
    {
      forall id | id in peers :: peers[id].peerId == id && peers[id].Valid()
    }

    ghost function Records(): map<string, PeerRecord>
      reads this, peers.Values
    {
      map id | id in peers :: peers[id].Record()
    }

    /** The peers of the wanted ids, once each, in some order: the order of the hash table. */
    ghost predicate Lists(result: seq<Peer>, wanted: set<string>)
      reads this
    {
      && (forall peer | peer in result :: peer.peerId in wanted && peer.peerId in peers && peers[peer.peerId] == peer)
      && (forall id | id in wanted :: id in peers && peers[id] in result)
      && (forall i, j | 0 <= i < j < |result| :: result[i].peerId != result[j].peerId)
    }

    constructor ()
      ensures Valid() && peers == map[]
    {
      peers := map[];
    }

    method AddPeer(peer: Peer)
      requires Valid() && peer.Valid()
      modifies this`peers
      ensures Valid() && peers == old(peers)[peer.peerId := peer]
    {
      peers := peers[peer.peerId := peer];
    }

    method RemovePeer(id: string)
      requires Valid()
      modifies this`peers
      ensures Valid() && peers == old(peers) - {id}
    {
      if id in peers {
        peers := peers - {id};
      }
    }

    method GetAllPeers() returns (result: seq<Peer>)
      requires Valid()
      ensures Lists(result, peers.Keys)
    {
      result := [];
      var todo := peers.Keys;
      while todo != {}
        invariant todo <= peers.Keys && Lists(result, peers.Keys - todo)
        decreases |todo|
      {
        var id :| id in todo;
        todo := todo - {id};
        result := result + [peers[id]];
      }
    }

    method GetActivePeers() returns (result: seq<Peer>)
      requires Valid()
      ensures Lists(result, set id | id in peers && peers[id].isActive)
    {
      result := [];
      var todo := peers.Keys;
      while todo != {}
        invariant todo <= peers.Keys && Lists(result, set id | id in peers && id !in todo && peers[id].isActive)
        decreases |todo|
      {
        var id :| id in todo;
        todo := todo - {id};
        if peers[id].isActive {
          result := result + [peers[id]];
        }
      }
    }

    method FindPeersWithFile(filename: string) returns (result: seq<Peer>)
      requires Valid()
      ensures Lists(result, set id | id in peers && peers[id].isActive && HasName(peers[id].sharedFiles, filename))
    {
      hide HasName;
      result := [];
      var todo := peers.Keys;
      while todo != {}
        invariant todo <= peers.Keys
        invariant Lists(result, set id | id in peers && id !in todo && peers[id].isActive
                                         && HasName(peers[id].sharedFiles, filename))
        decreases |todo|
      {
        var id :| id in todo;
        todo := todo - {id};
        if peers[id].isActive {
          var found := peers[id].HasFile(filename);
          if found {
            result := result + [peers[id]];
          }
        }
      }
    }

    /** The new list replaces the old one whatever that was, so that FindPeersWithFile finds the peer, if
        it is active, under exactly the names of the new list. */
    method UpdatePeerFileList(id: string, files: seq<FileInfo>, now: int)
      requires Valid()
      modifies if id in peers then {peers[id]} else {}
      ensures Valid()
      ensures id in peers ==>
        var peer := peers[id];
        && peer.sharedFiles == PerformAll(old(peer.sharedFiles), UpdateOps(old(peer.sharedFiles), files))
        && Summarizes(peer.sharedFiles, files) && DistinctNames(peer.sharedFiles)
        && (forall name :: HasName(peer.sharedFiles, name) <==> HasName(files, name))
        && peer.isActive == old(peer.isActive) && peer.lastSeen == now
    {
      hide DistinctNames, Summarizes, HasName, AddTo, PerformAll, UpdateOps;
      if id in peers {
        UpdateAlone(peers[id].sharedFiles, files);
        var peer := peers[id];
        var existing := peer.sharedFiles;
        for i := 0 to |existing|
          invariant peer.Valid() && peer.isActive == old(peer.isActive)
          invariant forall f | f in peer.sharedFiles :: f in existing[i..]
        {
          WithoutKeepsDistinct(peer.sharedFiles, existing[i].filename);
          assert existing[i..] == [existing[i]] + existing[i + 1..];
          peer.RemoveFile(existing[i].filename);
        }
        OnlyFrom(peer.sharedFiles, existing[|existing|..]);
        for i := 0 to |files|
          invariant peer.Valid() && peer.isActive == old(peer.isActive)
          invariant peer.sharedFiles == AddAll(files[..i])
        {
          assert files[..i + 1][..i] == files[..i];
          peer.AddFile(files[i]);
        }
        assert files[..|files|] == files;
        AddAllSummarizes(files);
        SummaryNames(peer.sharedFiles, files);
        peer.UpdateLastSeen(now);
      }
    }

    /** Erasing while iterating removes exactly the stale peers. */
    method RemoveStalePeers(now: int)
      requires Valid()
      modifies this`peers
      ensures Valid()
      ensures peers == map id | id in old(peers) && !Heartbeat.IsStale(old(peers)[id].lastSeen, now) :: old(peers)[id]
    {
      hide DistinctNames;
      var todo := peers.Keys;
      while todo != {}
        invariant Valid() && todo <= peers.Keys
        invariant peers == map id | id in old(peers)
                                    && (id in todo || !Heartbeat.IsStale(old(peers)[id].lastSeen, now)) :: old(peers)[id]
        decreases |todo|
      {
        var id :| id in todo;
        todo := todo - {id};
        if Heartbeat.IsStale(peers[id].lastSeen, now) {
          peers := peers - {id};
        }
      }
    }

    /** One round of contacts changes the presence of the active peers, and nothing else. */
    method BroadcastPeerDiscovery(outcomes: map<string, Outcome>)
      requires Valid() && forall id | id in peers && peers[id].isActive :: id in outcomes
      modifies peers.Values
      ensures Valid()
      ensures forall id | id in peers :: peers[id].sharedFiles == old(peers[id].sharedFiles)
      ensures forall id | id in peers ::
        Presence(peers[id]) == if !old(peers[id].isActive) then old(Presence(peers[id]))
                               else Heartbeat.AfterContact(old(Presence(peers[id])), outcomes[id].answered, outcomes[id].now)
    {
      hide DistinctNames;
      var active := GetActivePeers();
      for i := 0 to |active|
        invariant Valid()
        invariant forall id | id in peers :: peers[id].sharedFiles == old(peers[id].sharedFiles)
        invariant forall id | id in peers && peers[id] !in active[..i] ::
          Presence(peers[id]) == old(Presence(peers[id]))
        invariant forall id | id in peers && peers[id] in active[..i] ::
          Presence(peers[id]) == Heartbeat.AfterContact(old(Presence(peers[id])), outcomes[id].answered, outcomes[id].now)
      {
        var peer := active[i];
        assert peer in active && peer !in active[..i];
        var outcome := outcomes[peer.peerId];
        if outcome.answered {
          peer.UpdateLastSeen(outcome.now);
        } else {
          peer.SetActive(false, outcome.now);
        }
      }
      assert active[..|active|] == active;
    }

    /** A line that cannot be deserialized is skipped. */
    method AddLine(line: string)
      requires Valid()
      modifies this`peers
      ensures Valid() && Records() == Exchange.MergeLine(old(Records()), line)
      ensures forall id | id in peers :: (id in old(peers) && peers[id] == old(peers)[id]) || fresh(peers[id])
    {
      hide Deserialized, DistinctNames;
      ghost var records := Records();
      var now: int := *;
      var peer := Peer.Deserialize(line, now);
      if peer != null {
        AddPeer(peer);
        assert Records() == records[peer.peerId := peer.Record()];
      }
    }

    method AddPeers(lines: seq<string>)
      requires Valid()
      modifies this`peers
      ensures Valid() && Records() == Exchange.MergeLines(old(Records()), lines)
      ensures forall id | id in peers :: (id in old(peers) && peers[id] == old(peers)[id]) || fresh(peers[id])
    {
      hide DistinctNames, Exchange.MergeLine;
      ghost var before := Records();
      for i := 0 to |lines|
        invariant Valid()
        invariant Exchange.MergeLines(before, lines) == Exchange.MergeLines(Records(), lines[i..])
        invariant forall id | id in peers :: (id in old(peers) && peers[id] == old(peers)[id]) || fresh(peers[id])
      {
        AddLine(lines[i]);
        assert lines[i..][1..] == lines[i + 1..];
      }
    }

    method AddReplied(reply: Option<seq<bv8>>)
      requires Valid()
      modifies this`peers
      ensures Valid() && Records() == MergeReply(old(Records()), reply)
      ensures forall id | id in peers :: (id in old(peers) && peers[id] == old(peers)[id]) || fresh(peers[id])
    {
      hide DistinctNames, Exchange.PeerLines, Exchange.MergeLines;
      if reply.Some? {
        var lines := Exchange.RequestPeerList(reply.value);
        if lines.Some? {
          AddPeers(lines.value);
        }
      }
    }

    method ConnectToBootstrapNodes(replies: seq<Option<seq<bv8>>>)
      requires Valid()
      modifies this`peers
      ensures Valid() && Records() == MergeReplies(old(Records()), replies)
    {
      hide DistinctNames, MergeReply;
      ghost var before := Records();
      for i := 0 to |replies|
        invariant Valid()
        invariant forall id | id in peers :: (id in old(peers) && peers[id] == old(peers)[id]) || fresh(peers[id])
        invariant MergeReplies(before, replies) == MergeReplies(Records(), replies[i..])
      {
        AddReplied(replies[i]);
        assert replies[i..][1..] == replies[i + 1..];
      }
    }
  }

  lemma OnlyFrom(files: seq<FileInfo>, rest: seq<FileInfo>)
    requires forall f | f in files :: f in rest
    ensures rest == [] ==> files == []
  {
    if files != [] {
      assert files[0] in rest;
    }
  }

  lemma SummaryNames(list: seq<FileInfo>, files: seq<FileInfo>)
    requires Summarizes(list, files)
    ensures forall name :: HasName(list, name) <==> HasName(files, name)
  {
  }
}

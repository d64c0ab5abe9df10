# Verified model of the peer-to-peer file sharing node

This project models the logic of a C++17 file sharing node in Dafny and proves what the node's protocols
keep, deliver and reject. Every statement below is for all inputs, all runs or all reachable states.
`dafny verify dfyconfig.toml` checks the whole project.

| file | what it models |
|---|---|
| `Polynomials.dfy`, `Crc32.dfy` | the CRC-32 loop with its table, against bit-serial division (section 8 of RFC 1952) and polynomial long division (section 8.1.1.6.2 of ITU-T V.42) |
| `Bytes.dfy`, `Codec.dfy` | byte orders; prefix-free encodings and what follows from them |
| `Protocol.dfy`, `Payloads.dfy` | the checksummed envelope and the payload codecs |
| `ThreadPool.dfy` | the thread pool as a transition system over its atomic steps |
| `Text.dfy`, `Peers.dfy`, `PeerText.dfy`, `FileLists.dfy` | number and field parsing, `Peer`, its text form and its file list |
| `Exchange.dfy`, `PeerManager.dfy` | exchange of peer and file lists; the table of known peers |
| `Heartbeat.dfy` | the heartbeat as a timed protocol |
| `Framing.dfy`, `ServerReads.dfy` | messages on a byte stream as the client frames them, and as the server writes and reads them without frames |
| `Transfer.dfy` | chunked file transfer and the download state machine |

## How it is modelled

- Code that works in place is imperative here: classes `Pool`, `StringStream`, `Peer`, `PeerManager`,
  `Connection`, `InputFile`, `OutputFile`, `DownloadProgress` and `Client`, and methods with loops. Each method is
  tied to a specification that does not mention its body, and the theorems are lemmas about that
  specification.
- A parser of the binary protocol is specified by the serializer it must invert: `Codec.Decoded` is the value
  whose bytes the payload begins with, if there is one. Nothing in that definition parses.
- Exceptions and error returns are `None`, `false` or a null result. Integers are unbounded, and every place
  where the C++ type is narrower says so (`Trunc32`, `TWO_31`, `TWO_64`).
- A `std::string` is a sequence of characters below 256 (`IsText`); hashes are uninterpreted strings.
- The header is copied in host byte order; the model takes a little-endian host. `size_t` has 64 bits.
- Clocks, outcomes of contacts, what the network delivers and how it cuts it into pieces are parameters or
  arbitrary choices. An arbitrary choice stays arbitrary in every theorem.
- The thread pool has at least one worker, any finite number of `enqueue` calls from any threads, and one call
  of `shutdown` from a thread that is not a worker. Each task call returns or throws.

## Where code, comments and documentation disagree

Each of these follows the code, and the lemma named says exactly when the promise holds.

- `Server::sendMessage` writes no length, but `Client::receiveMessage` reads one. No message type is zero, so
  a reply looks like a message above 10 MiB or is too short for a length, and every `requestPeerList`,
  `requestFileList` and `downloadFile` against this server fails (`ServerReads.UnframedReplyRefused`,
  `Transfer.UnframedTransferFails`).
- In the other direction the server takes whatever it reads at once for one message, without a length. Which
  requests it serves depends on how the client's frame is cut into blocks on the way, and any cut is possible
  (`ServerReads.AnyBlock`). A file or file list request is served as it was sent exactly when one block is the
  frame without its length (`ServerReads.RequestServed`, `ServerReads.RequestServedLast`), save for rare
  requests that repeat their own length (`ServerReads.EchoedRequest`). Read in one block, no frame within
  10 MiB is served (`ServerReads.OneBlock`); read as length and body, every one is (`ServerReads.TwoBlocks`).
- The results on exchange and transfer are therefore about whole messages, or about streams framed as the
  client frames them.
- `downloadFile` does not ask whether its writes succeed. It reports success and the full size even when the
  destination has taken only part of the file (`Transfer.StoredWhole`).
- The protocol is documented as validated by CRC-32. `parseMessage` skips the comparison for an empty payload, so
  the checksum field is unprotected exactly there (`Protocol.ChecksumFieldChange`).
- `getline` does not report an empty field at the end of its input. A peer whose last file has an empty hash
  loses that file (`PeerText.ReceivedText`), and a file without a hash is dropped from a file list
  (`Exchange.FileListExchange`).
- The node is documented for more than 200 peers. The heartbeat contacts peers one after the other, and a peer that
  answers every contact is sure to stay only while the number of active peers times the longest contact is
  at most 270 seconds (`Heartbeat.AnsweringPeerStays`); the bound is exact (`Heartbeat.AnsweringPeerRemoved`).

## Model

| member | source | states |
|---|---|---|
| Crc32.CalculateCRC32 | src/Protocol.cpp:267-275 | for every byte sequence the table-driven loop returns the complement of the register that bit-by-bit reflected division leaves from all ones |
| Crc32.TableEntry | src/Protocol.cpp:5-70 | each of the 256 table constants is eight single-bit division steps of its index |
| Crc32.ByteStep | src/Protocol.cpp:271 | one table step equals dividing by the eight bits of the byte, low bit first, for every register |
| Crc32.DivideWord | src/Protocol.cpp:270-272 | a word of message bits can be added to the register at once and then shifted out |
| Crc32.FourByteIdentity | src/Protocol.cpp:270-272 | four table steps on the bytes of a word are four table steps on zeros after adding the word to the register |
| Crc32.DivideInjective | src/Protocol.cpp:270-272 | for any fixed message the final register is a one-to-one function of the initial one |
| Crc32.DivideIsRemainder | src/Protocol.cpp:267-275 | bit-serial division of any bit string from any register is the remainder of polynomial long division |
| Crc32.ChecksumIsRemainder | src/Protocol.cpp:267-275 | the checksum is the frame check sequence as V.42 defines it: complement the first 32 coefficients, append 32 zeros, divide, complement |
| Crc32.DivideLinear | src/Protocol.cpp:270-272 | division is linear in register and message together |
| Crc32.ChecksumAffine | src/Protocol.cpp:267-275 | for three messages of one length the exclusive or of their checksums is the checksum of their exclusive or |
| Polynomials.RemainderLinear | src/Protocol.cpp:267-275 | long division by the generator is linear |
| Polynomials.RemainderNonzero | src/Protocol.cpp:267-275 | the generator divides no power of x times a nonzero polynomial of degree below 32 |
| Polynomials.BurstChangesRemainder | src/Protocol.cpp:267-275 | dividends that differ only within 32 consecutive coefficients leave different remainders |
| Crc32.SameChecksum | src/Protocol.cpp:267-275 | two messages of one length have the same checksum if and only if the generator divides their difference: exactly which changes go undetected |
| Crc32.BurstDetected | src/Protocol.cpp:267-275 | messages of one length, however long, that differ only within 32 consecutive bits have different checksums |
| Crc32.FourByteBurstDetected | src/Protocol.cpp:267-275 | the same for a change within four consecutive bytes |
| Bytes.FromToBigEndian | src/Protocol.cpp:297-312 | reading a written 32-bit integer gives the integer |
| Bytes.ToFromBigEndian | src/Protocol.cpp:297-312 | writing the integer read from four bytes gives the four bytes |
| Bytes.BigEndianPlaces | src/Protocol.cpp:297-301 | each byte in network order has its place value, the first byte the highest |
| Bytes.LittleEndianPlaces | src/Protocol.cpp:81-82 | each byte in host order has its place value, the first byte the lowest |
| Bytes.Trunc32Residue | src/Protocol.cpp:75 | conversion to uint32_t keeps the residue modulo 2^32, of negative numbers too |
| Bytes.ToBytesAt | src/Protocol.cpp:279 | byte i of a text is the code of character i |
| Protocol.MessageBytes | include/Protocol.h:7-23 | a message byte by byte: 32 50 32 50, 01 00 00 00, the type, then size modulo 2^32 and checksum with the low byte first, then the payload |
| Protocol.ReadLayout | include/Protocol.h:7-23 | a header read from the 17 bytes it was copied to is the header |
| Protocol.LayoutRead | include/Protocol.h:7-23 | any 17 bytes are the layout of the header read from them |
| Protocol.CreateMessage | src/Protocol.cpp:72-90 | header with magic, version, type, size modulo 2^32 and checksum, then the payload |
| Protocol.HeaderDecides | src/Protocol.cpp:92-122 | the accepted messages, described through the writer, are exactly those that pass the header checks |
| Protocol.ParseMessage | src/Protocol.cpp:92-122 | accepts exactly the messages the writer produces for payloads below 4 GiB, any checksum field being allowed when the payload is empty, and returns their type and payload |
| Protocol.AcceptsUnique | src/Protocol.cpp:92-122 | a message is accepted as at most one type and payload |
| Protocol.EnvelopeRoundTrip | src/Protocol.cpp:72-122 | a created message is accepted as its own type and payload if and only if the payload is below 4 GiB, and as nothing else |
| Protocol.ChangedPayload | src/Protocol.cpp:72-122 | a payload replaced by another of its length is accepted if and only if the checksums agree |
| Protocol.BurstRejected | src/Protocol.cpp:72-122 | payload changes within 32 consecutive bits are always rejected, for every payload length |
| Protocol.FourByteBurstRejected | src/Protocol.cpp:72-122 | payload changes within four consecutive bytes are always rejected, for every payload length |
| Protocol.ChecksumFieldChange | src/Protocol.cpp:109-118 | a message with a changed checksum field is still accepted if and only if its payload is empty |
| Codec.PrefixFreeCodec | src/Protocol.cpp:188-265 | for any prefix-free encoding: parsing inverts serializing, re-serializing gives the consumed bytes, appended bytes change nothing, and every proper prefix of a serialized value is rejected |
| Codec.ListPrefixFree | src/Protocol.cpp:128-163 | a counted list of prefix-free elements is prefix-free |
| Codec.NoListHere | src/Protocol.cpp:197-203 | a parser that read some elements and then finds none has shown that no list of that length is there |
| Payloads.SerializeUint32 | src/Protocol.cpp:297-301 | appends the value modulo 2^32, most significant byte first |
| Payloads.SerializeString | src/Protocol.cpp:277-280 | appends length and bytes |
| Payloads.DeserializeUint32 | src/Protocol.cpp:303-312 | reads the integer whose encoding is at the offset and advances past it; fails exactly when fewer than four bytes are left |
| Payloads.DeserializeBytes | src/Protocol.cpp:253-263 | reads the bytes whose encoding is at the offset; fails exactly when no encoding is there |
| Payloads.DeserializeString | src/Protocol.cpp:282-295 | reads the string whose encoding is at the offset; fails exactly when no encoding is there |
| Payloads.StringPrefixFree | src/Protocol.cpp:277-295 | no string's encoding begins with another's |
| Payloads.CreatePeerListResponse | src/Protocol.cpp:128-140 | the envelope around the counted list of strings |
| Payloads.ParsePeerListResponse | src/Protocol.cpp:188-206 | returns the one list whose encoding the payload begins with; fails exactly when there is none |
| Payloads.CreateFileListResponse | src/Protocol.cpp:148-163 | the envelope around the counted list of name, size, hash and time |
| Payloads.DeserializeFile | src/Protocol.cpp:217-228 | reads the one file record whose encoding is at the offset; fails exactly when there is none |
| Payloads.ParseFileListResponse | src/Protocol.cpp:208-232 | returns the one list whose encoding the payload begins with; fails exactly when there is none |
| Payloads.CreateFileRequest | src/Protocol.cpp:165-171 | the envelope around name, offset and length |
| Payloads.ParseFileRequest | src/Protocol.cpp:234-247 | returns the one request whose encoding the payload begins with; fails exactly when there is none |
| Payloads.CreateFileChunk | src/Protocol.cpp:173-179 | the envelope around offset, size and data |
| Payloads.ParseFileChunk | src/Protocol.cpp:249-265 | returns the one chunk whose encoding the payload begins with; fails exactly when there is none |
| Payloads.StringBytes | src/Protocol.cpp:277-280 | a string on the wire: its length by place value, then its bytes |
| Payloads.ListBytes | src/Protocol.cpp:128-137 | a list on the wire: the count by place value, then the elements in order |
| Payloads.FileBytes | src/Protocol.cpp:155-160 | a file record on the wire: name, size, hash and time at their positions, numbers by place value |
| Payloads.RequestBytes | src/Protocol.cpp:165-171 | a file request on the wire: name, offset and length at their positions |
| Payloads.ChunkBytes | src/Protocol.cpp:173-179 | a chunk on the wire: offset, size and data at their positions |
| Payloads.OnWireKeeps | src/Protocol.cpp:228 | what arrives of a file record: name and hash unchanged, size and time modulo 2^32, no path |
| Payloads.CodecsPrefixFree | src/Protocol.cpp:128-179 | all four codecs are prefix-free, so Codec.PrefixFreeCodec holds of them |
| Payloads.PeerListRoundTrip | src/Protocol.cpp:128-206 | a peer list comes back unchanged through envelope and codec if and only if its payload is below 4 GiB |
| Payloads.FileListRoundTrip | src/Protocol.cpp:148-232 | a file list comes back with empty paths and sizes and times modulo 2^32 if and only if its payload is below 4 GiB |
| Payloads.FileRequestRoundTrip | src/Protocol.cpp:165-247 | a file request comes back with offset and length modulo 2^32 if and only if its payload is below 4 GiB |
| Payloads.FileChunkRoundTrip | src/Protocol.cpp:173-265 | a chunk comes back with its offset modulo 2^32 if and only if its payload is below 4 GiB |
| ThreadPool.Pool.constructor | src/ThreadPool.cpp:3-5 | as many awake workers as asked for and an empty queue, with the invariant that every method below requires and keeps |
| ThreadPool.Pool.LockAsWorker | src/ThreadPool.cpp:10 | an awake worker takes the free mutex |
| ThreadPool.Pool.Decide | src/ThreadPool.cpp:11-19 | the holder takes the front task, returns if stopped and drained, or sleeps, and releases the mutex |
| ThreadPool.Pool.FinishTask | src/ThreadPool.cpp:21-27 | a task call that returns or throws leaves the worker alive and the task finished |
| ThreadPool.Pool.LockAsCaller | include/ThreadPool.h:39 | a call of enqueue takes the free mutex |
| ThreadPool.Pool.Push | include/ThreadPool.h:41-46 | refuses after stop, else appends the task; releases the mutex |
| ThreadPool.Pool.NotifyOne | include/ThreadPool.h:48 | wakes some sleeping worker if there is one |
| ThreadPool.Pool.LockAsStopper | src/ThreadPool.cpp:39 | shutdown takes the free mutex |
| ThreadPool.Pool.Stop | src/ThreadPool.cpp:40-41 | sets stop and releases the mutex |
| ThreadPool.Pool.NotifyAll | src/ThreadPool.cpp:43 | wakes every sleeping worker |
| ThreadPool.Pool.Join | src/ThreadPool.cpp:45-51 | joins the workers in order, each once it has returned, then clears the list |
| ThreadPool.Pool.QueueSize | src/ThreadPool.cpp:54-57 | the number of queued tasks |
| ThreadPool.InvStep | src/ThreadPool.cpp:3-52 | every step of every thread keeps mutual exclusion, the stage of shutdown, the wakeup bound and the account of tasks |
| ThreadPool.ReachableInv | src/ThreadPool.cpp:3-52 | the invariant holds in every state that any interleaving reaches |
| ThreadPool.WorkerCount | src/ThreadPool.cpp:3-5 | in every reachable state there are as many workers as the pool was started with, until shutdown has joined them |
| ThreadPool.AllAtOnce | src/ThreadPool.cpp:3-30 | some run has as many workers inside a task at once as there are workers and tasks |
| ThreadPool.NoLostWakeup | src/ThreadPool.cpp:10-19 | with a task queued some worker is awake or running or a notification is pending; while a worker sleeps the queue is no longer than the workers coming for it plus the notifications pending; after notify_all no worker sleeps |
| ThreadPool.NoDeadlock | src/ThreadPool.cpp:10-52 | a reachable state that owes no step has an empty queue, no call in progress, every accepted task finished, and all workers asleep or all joined |
| ThreadPool.ExactlyOnce | src/ThreadPool.cpp:7-27 | accepted tasks are the dispatched ones followed by the queue; each accepted task is in exactly one of queue, workers and finished, a refused one in none; at most one task per worker |
| ThreadPool.DrainedForEver | src/ThreadPool.cpp:13-18 | once a worker has returned or shutdown has joined, the queue stays empty and nothing more is accepted |
| ThreadPool.JoinedAllRun | src/ThreadPool.cpp:37-52 | when shutdown has joined, every accepted task has been run exactly once |
| ThreadPool.FuelDecreases | src/ThreadPool.cpp:6-52 | after stop every step, spurious wakeups included, strictly decreases a weighted sum over queue, workers, calls and shutdown |
| ThreadPool.FuelBoundsRun | src/ThreadPool.cpp:6-52 | after stop no run is longer than that sum |
| ThreadPool.ShutdownTerminates | src/ThreadPool.cpp:37-52 | after stop every run is bounded, and one that owes no further step has joined all workers |
| ThreadPool.DutyDecreases | src/ThreadPool.cpp:6-52 | before and after stop every step other than a spurious wakeup decreases the work owed, in which a sleeping worker counts nothing |
| ThreadPool.DutyBoundsRun | src/ThreadPool.cpp:6-52 | any run is no longer than the work owed at its start plus three steps for each spurious wakeup |
| ThreadPool.WorkGetsDone | src/ThreadPool.cpp:6-52 | with or without shutdown, runs are bounded up to spurious wakeups, and where one ends every call has returned and every accepted task has been run exactly once |
| Text.NumberRoundTrip | src/Peer.cpp:72-106 | stoul reads back every printed size_t and stoi every printed int |
| Text.PrintedCanonical | src/Peer.cpp:72-78 | numbers are printed without leading zeros, with a minus only if negative and without a plus |
| Text.ValueByPlace | src/Peer.cpp:97-104 | a digit weighs ten to the number of digits after it |
| Text.StoiExactly | src/Peer.cpp:97 | stoi gives the number that white space, an optional sign and digits at the front of the text stand for, if it fits in an int, and throws on everything else |
| Text.StoulExactly | src/Peer.cpp:100-104 | the same for stoul with 64 bits, a negative number being taken modulo 2^64 |
| Text.StringStream.GetLine | src/Peer.cpp:89 | fails exactly at the end of input; else reads up to the delimiter and consumes it |
| Text.Tokenize | src/Peer.cpp:85-91 | the fields of the text, one for each successful getline |
| Text.SplitJoin | src/Peer.cpp:70-91 | splitting joined fields that do not contain the delimiter gives the fields, except that an empty last one is lost |
| Text.SplitClean | src/Peer.cpp:89-91 | no token contains the delimiter |
| Text.SplitTerminated | src/Client.cpp:147-154 | splitting records that each end with the delimiter gives all of them, empty ones included |
| Peers.Peer.constructor | src/Peer.cpp:5-8 | an active peer without files, just seen |
| Peers.Peer.AddFile | src/Peer.cpp:10-22 | replaces the record of that name in place or appends it; names stay distinct |
| Peers.Peer.RemoveFile | src/Peer.cpp:24-31 | keeps exactly the records of other names, in order |
| Peers.Peer.HasFile | src/Peer.cpp:38-42 | whether the name is listed |
| Peers.Peer.GetFileInfo | src/Peer.cpp:44-53 | the record of that name; throws exactly when there is none |
| Peers.Peer.SetActive | src/Peer.cpp:55-60 | sets the flag and refreshes last_seen only when set to true |
| Peers.Peer.UpdateLastSeen | src/Peer.cpp:62-64 | sets last_seen to now and nothing else |
| Peers.Peer.Serialize | src/Peer.cpp:70-82 | the fields of the peer and of its files in order, separated by bars |
| Peers.Peer.Deserialize | src/Peer.cpp:84-110 | throws on fewer than five fields or a bad number; else a peer with these fields and distinct file names, just seen |
| Peers.AddKeepsDistinct | src/Peer.cpp:10-22 | addFile keeps names distinct |
| Peers.WithoutKeepsDistinct | src/Peer.cpp:24-31 | removeFile keeps names distinct and removes exactly the records of that name |
| Peers.WithoutInOrder | src/Peer.cpp:24-31 | removeFile keeps the order of the other records |
| PeerText.ReadFilesExactly | src/Peer.cpp:100-107 | the file loop reads as many records as counted or as are complete, and throws exactly if one of their sizes is no number |
| PeerText.DeserializedExactly | src/Peer.cpp:84-110 | for every text, when deserialize throws and which token each field comes from |
| PeerText.SerializedFields | src/Peer.cpp:70-82 | the tokens of a printed peer: id, address, port, flag, count, then name, size and hash of each file |
| PeerText.ReceivedText | src/Peer.cpp:70-110 | without a bar in a text field everything printed is recovered, except that the last file is lost exactly when its hash is empty |
| PeerText.DeserializedClean | src/Peer.cpp:84-110 | a deserialized peer has no bar in any text field |
| PeerText.TextRoundTrip | src/Peer.cpp:70-110 | everything printed is recovered if and only if no text field contains a bar and the last file has a hash |
| FileLists.AddAllSummarizes | src/PeerManager.cpp:139-142 | adding files one by one lists distinct names in the order of first occurrence, each with its last record |
| FileLists.AnyCalls | src/Peer.cpp:10-31 | after any addFile and removeFile calls names are distinct and a record whose name no call mentions is listed as before |
| FileLists.AnyInterleaving | src/Peer.cpp:10-31 | in any interleaving of addFile and removeFile calls the last call for a name decides whether it is listed and with which record, whatever calls for other names follow |
| FileLists.UpdateAlone | src/PeerManager.cpp:126-146 | the calls of one update, undisturbed, build the list from its files alone |
| FileLists.InterleavedUpdates | src/PeerManager.cpp:126-146 | two updates of one peer at the same time leave, in any interleaving, distinct names and only records that one of them brought |
| Exchange.HandlePeerListRequest | src/Server.cpp:174-185 | type byte, then each peer's text on a line of its own |
| Exchange.HandleFileListRequest | src/Server.cpp:187-198 | type byte, then name, size and hash of each file on a line of its own |
| Exchange.RequestPeerList | src/Client.cpp:137-157 | the non-empty lines of a response of the right type; throws on any other |
| Exchange.ReadFileLine | src/Client.cpp:175-188 | the record on a line, or nothing if a field is missing or the size is no number |
| Exchange.RequestFileList | src/Client.cpp:159-193 | the records on the lines of a response of the right type; throws on any other |
| Exchange.PrintedInOrder | src/Server.cpp:178-194 | the printed lists are one line for each peer or file, in order, and nothing else |
| Exchange.ResponseTypes | src/Client.cpp:141-166 | requestPeerList and requestFileList throw exactly on an empty response and on one of another type |
| Exchange.NonEmptyInOrder | src/Client.cpp:150-154 | every line that is not empty is returned, in order |
| Exchange.FileLinesInOrder | src/Client.cpp:173-190 | every line is parsed by itself and its record returned, in order |
| Exchange.FileLineExactly | src/Client.cpp:175-188 | exactly the lines made of a name and a number without a bar and a non-empty hash, separated by bars, give a record |
| Exchange.FileListExchange | src/Server.cpp:187-198 | with no bar or newline in names and no newline in hashes the client gets exactly the files that have a hash, in order |
| Exchange.FileListIntact | src/Client.cpp:159-193 | the whole list arrives if and only if no name has a bar or newline, no hash a newline, and no hash is empty |
| Exchange.PeerLinesArrive | src/Client.cpp:145-156 | with newline-free fields the client gets exactly the printed peers, in order |
| Exchange.MergeSerialized | src/PeerManager.cpp:93-102 | merging printed peers overwrites the table with them, keyed by id, and changes nothing else |
| Exchange.PeerListExchange | src/PeerManager.cpp:87-111 | printing all peers, splitting the reply and merging makes the joiner's table its old table overwritten by the responder's peers |
| Exchange.LastAccessDecides | src/PeerManager.cpp:93-102 | with other threads using the table between the additions, each id ends up as the last access that touches it leaves it |
| Exchange.BadLineSkipped | src/PeerManager.cpp:95-102 | a line that cannot be deserialized makes no difference to the lines before and after it |
| Exchange.MergeIsAccesses | src/PeerManager.cpp:95-102 | undisturbed, the merge is one access for each line |
| PeerManagers.FailedNodeSkipped | src/PeerManager.cpp:88-110 | a node that cannot be reached, or answers with another type, makes no difference to the nodes before and after it |
| PeerManagers.RepliesLeave | src/PeerManager.cpp:88-110 | an id that no reply names keeps its entry |
| PeerManagers.AnswerArrives | src/PeerManager.cpp:88-110 | wherever in the list a node answers, each peer it printed is in the table in the end, unless a later node names its id |
| PeerManagers.PeerManager.AddPeer | src/PeerManager.cpp:34-41 | sets the entry of the peer's id and no other |
| PeerManagers.PeerManager.RemovePeer | src/PeerManager.cpp:43-50 | removes that entry and no other |
| PeerManagers.PeerManager.GetAllPeers | src/PeerManager.cpp:58-68 | every peer once |
| PeerManagers.PeerManager.GetActivePeers | src/PeerManager.cpp:70-81 | exactly the active peers, once each |
| PeerManagers.PeerManager.FindPeersWithFile | src/PeerManager.cpp:113-124 | exactly the active peers that list the name, once each |
| PeerManagers.PeerManager.UpdatePeerFileList | src/PeerManager.cpp:126-146 | whatever the old list, the known peer lists the distinct names of the new one in first-occurrence order with their last records, is found under exactly these names, and is refreshed; nobody else changes; undisturbed by a second update |
| PeerManagers.PeerManager.RemoveStalePeers | src/PeerManager.cpp:157-172 | erasing while iterating removes exactly the entries last seen more than five minutes ago |
| PeerManagers.PeerManager.BroadcastPeerDiscovery | src/PeerManager.cpp:174-191 | each active peer that answers is refreshed, each that does not becomes inactive, and nothing else changes, when no other call comes in between |
| PeerManagers.PeerManager.AddLine | src/PeerManager.cpp:96-101 | a line that can be deserialized sets the entry of its id; any other changes nothing |
| PeerManagers.PeerManager.AddPeers | src/PeerManager.cpp:95-102 | the table after all lines is the merge of the records |
| PeerManagers.PeerManager.ConnectToBootstrapNodes | src/PeerManager.cpp:87-111 | the table after all nodes is the merge of the replies; a node that fails changes nothing; when no other call comes in between |
| Heartbeat.WellFormedStep | src/PeerManager.cpp:148-191 | every step keeps the snapshot free of repetitions, of inactive peers and within the load |
| Heartbeat.SafeStep | src/PeerManager.cpp:148-191 | a step in which the peer answers keeps it registered, active and recent enough for the phase of the round |
| Heartbeat.AnsweringPeerStays | src/PeerManager.cpp:148-191 | over any run with at most n active peers, at most T for each contact and 30 s plus n times T within 300 s, a peer that answers whenever it is contacted, and that no other call removes or replaces, stays in the table |
| Heartbeat.RegisteredIsSafe | src/PeerManager.cpp:34-41 | a peer is safe in this sense from the moment it is registered, in whatever phase |
| Heartbeat.AnsweringPeerRemoved | src/PeerManager.cpp:148-191 | under any heavier load there is a run from the empty table, never with more than n peers in it and with every contact answered, that removes a peer, one registered anew just after a snapshot |
| Heartbeat.FailedContact | src/PeerManager.cpp:184-189 | after a failed contact the peer is inactive with its last_seen unchanged and is not contacted again in this round |
| Heartbeat.GoneStep | src/PeerManager.cpp:157-191 | an inactive peer that nobody else touches keeps its last_seen, and leaves the table in a step exactly if that is a scan more than five minutes later |
| Heartbeat.InactivePeerExpires | src/PeerManager.cpp:148-191 | over any run such a peer is gone if and only if the run has a scan more than five minutes after it was last seen |
| Heartbeat.InactivePeerDeadline | src/PeerManager.cpp:148-191 | once a run has had a scan, such a peer is gone by five minutes, one pause and one full round of contacts after it was last seen |
| Heartbeat.HeartbeatGoesOn | src/PeerManager.cpp:148-191 | in every state the heartbeat can go on: scan, take any snapshot of the active peers, reach the next peer with either outcome, or sleep |
| Heartbeat.OtherCalls | src/PeerManager.cpp:34-50 | registration, removal and refresh change the one entry or object they name and nothing else |
| Heartbeat.RefreshPostpones | src/PeerManager.cpp:144 | a refresh makes an inactive peer count as seen now |
| Framing.FrameBytes | src/Client.cpp:82-101 | a frame byte by byte: the size modulo 2^32 with the high byte first, the type, the payload |
| Framing.Connection.SendMessage | src/Client.cpp:77-103 | however the sends of the body are split, the stream grows by the whole frame if the length went in one piece and there is room; else by as much as was accepted, and an exception follows |
| Framing.Connection.ReceiveMessage | src/Client.cpp:105-135 | however the receives are split, the message returned and the bytes left are a function of the stream alone |
| Framing.FrameReceived | src/Client.cpp:77-135 | a frame is received as the message sent, leaving what follows untouched, if and only if the message has at most 10 MiB with its type byte |
| Framing.ReceivedExactly | src/Client.cpp:105-135 | for every stream: receiveMessage returns a message and leaves a rest exactly if the stream is the length, at most 10 MiB, that message and that rest |
| Framing.CutFrame | src/Client.cpp:105-135 | a frame that is cut short yields an exception and no message |
| Framing.CutStream | src/Client.cpp:77-135 | wherever a stream of frames is cut off, the receiver gets exactly the messages whose frames arrived whole, in order, and then an exception |
| Framing.StreamReceived | src/Client.cpp:77-135 | any list of messages of at most 10 MiB each is received exactly, in order, with nothing left over |
| ServerReads.UnframedReplyRefused | src/Server.cpp:228-245 | receiveMessage throws on every message written without a length whose type is not zero |
| ServerReads.ReceiveBlock | src/Server.cpp:247-273 | one call gathers the bytes up to the first read that does not fill the buffer, and throws if the connection ends before that |
| ServerReads.BlockExactly | src/Server.cpp:247-273 | for every sequence of reads: the block is all reads that fill the buffer and the short one after them, and is lost if the connection ends or fails instead |
| ServerReads.AnyBlock | src/Server.cpp:247-273 | any bytes can come out as one block, so a stream can be cut into blocks anywhere |
| ServerReads.RequestServed | src/Server.cpp:143-172 | for every cut of its frame into blocks, a file request reaches the file handler with its name, and a file list request the file list handler with its peer, if and only if some block has the request's length and begins after the length bytes or at an echo |
| ServerReads.EchoNeedsKind | src/Server.cpp:143-172 | a request is echoed only if its type is among the bytes of its length |
| ServerReads.RequestServedLast | src/Server.cpp:143-172 | otherwise it is served as sent if and only if the last block is the frame without its length |
| ServerReads.EchoedRequest | src/Server.cpp:143-172 | a file request that is served from a block that begins within its length |
| ServerReads.PeerListRequestServed | src/Server.cpp:143-172 | a peer list request is served if and only if the last block of its frame has at most two bytes |
| ServerReads.OneBlock | src/Server.cpp:143-172 | read in one block, a frame goes where the top byte of its length says, and within 10 MiB nowhere |
| ServerReads.TwoBlocks | src/Server.cpp:143-172 | read as length and body, every frame within 10 MiB goes with its payload to the handler of its type, and nothing else is served |
| Transfer.SendUnframed | src/Server.cpp:228-245 | however the sends are split, type and payload are on the stream if there is room, else as much of them as there is room for and an exception |
| Transfer.SendChunks | src/Server.cpp:211-217 | the reading loop sends the chunks of the file in order, up to the byte at which the connection fails |
| Transfer.HandleFileRequest | src/Server.cpp:200-226 | the error message, or all chunks and a completion, in order, up to the byte at which the connection fails |
| Transfer.ChunksPartition | src/Server.cpp:211-217 | the chunks are non-empty, at most 8192 bytes, all but the last full, as many as the length over 8192 rounded up, and together the file |
| Transfer.Client.DownloadFile | src/Client.cpp:195-280 | succeeds exactly when a FILE_COMPLETE comes before any error, empty message or receive failure; the file is the chunk payloads received up to there, as far as the destination takes them; sizes, error text and flags, of which completed and failed are never both set |
| Transfer.TransferCorrect | src/Client.cpp:220-257 | a download that gets the first messages of a reply succeeds if and only if it gets all of them, and has then handed the destination the whole file; otherwise it fails, having handed over a beginning of it |
| Transfer.FramedTransfer | src/Client.cpp:105-257 | the same over a framed stream, wherever it is cut off |
| Transfer.ErrorReplies | src/Server.cpp:205-224 | without the file the server writes type 8 and the text of the exception, or type 8 and the name of a file that cannot be opened |
| Transfer.OpenedReply | src/Server.cpp:211-220 | with the file it writes its chunks, each with type 6, then type 7, and nothing else |
| Transfer.ReplyOutcome | src/Client.cpp:223-269 | a download of the whole reply succeeds if and only if the file was opened; otherwise it fails at the error text with nothing written |
| Transfer.FramedOutcome | src/Client.cpp:105-269 | the same over framed streams, for error texts of any length |
| Transfer.DownloadSteps | src/Client.cpp:223-270 | how each next message changes the outcome: a chunk is written, another type passed over, 7 is success, 8 and a receive failure are failure, an empty message is neither |
| Transfer.StoredWhole | src/Client.cpp:233-257 | a download of the whole reply reports success whatever the destination takes, and has stored the file if and only if the destination takes all of it |
| Transfer.UnframedTransferFails | src/Server.cpp:200-245 | over what the server really writes, cut off anywhere, every download fails with an empty file |

## Left out

- `HighPerformanceServer`, socket and epoll set-up, accept loops and timeouts: system calls, or handlers that are only declared.
- `createPeerListRequest`, `createFileListRequest`, `createErrorMessage`: creators for which the repository has no parser, so there is nothing to round-trip. `parseErrorMessage` and multi-source download are declared but not defined.
- `FileManager` (hashing, scanning), `CLI`, `Logger`, `main`, download speed and progress display.
- `getPeer`, the peer counts and `getAllDownloads`: plain look-ups.
- The second `ThreadPool` declaration in `include/Client.h`, and places that do not compile as written (such as calling `serialize` with a dot on a shared pointer): the intended behaviour is modelled.
- Futures and results of enqueued tasks; a pool without workers; `shutdown` called by a worker or twice.
- Crc32.Table: the constants are a function found by bisection instead of an array; each entry is the same.
- Framing.Connection.ReceiveMessage: what arrives after a receive has timed out is not modelled; callers give up on the exception.
- Transfer.HandleFileRequest: a connection that has refused a send refuses all later ones; read errors within the served file are not modelled.
- ServerReads.RequestServed: one frame at a time; a block that holds the end of one frame and the start of the next is not modelled.
- PeerManagers.PeerManager.UpdatePeerFileList: undisturbed by a second update of the same peer; FileLists.InterleavedUpdates has that case.
- PeerManagers.PeerManager.BroadcastPeerDiscovery: undisturbed by other calls; Heartbeat interleaves single contacts with them.
- PeerManagers.PeerManager.ConnectToBootstrapNodes: undisturbed by other calls; Exchange.LastAccessDecides has that case.
- Heartbeat.AnsweringPeerStays: time passes only in contacts and in the sleep between rounds; the clock does not jump.
- Peers.Peer.Serialize: each method is one atomic step, so a file list changed by another thread between printing two peers is not modelled.

# torrent-stream's piece-exchange engine, in Dafny

This project models the core of torrent-stream, a BitTorrent client
library for Node.js: the engine that fetches a torrent's pieces from
peers over the peer wire protocol of BEP 3 in 16 KiB blocks, assembles
and checks them against their SHA-1 digests, keeps the selection of
wanted piece ranges, stores pieces in the torrent's files, and decides
which peers to upload to. It also models the bookkeeping structures
around that engine: the IP blocklist, the metadata exchange of BEP 9
and the DHT crawl frontier of BEP 5.

The scheduler exists in three generations in the repository
(`lib/torrent-client.js`, `engine.js` and `lib/TorrentStream.js`). They
are one class, `Scheduler.Engine`, whose constant `version` picks the
generation wherever the three differ, so each difference stays visible
in the contracts.

Modules, one per component:

- `Piece` (`piece.dfy`): the per-piece assembly buffer of `lib/piece.js`, with
  block reservation (a LIFO stack of cancelled blocks, then fresh ones),
  idempotent `set` and a one-shot `flush`.
- `Peer` (`wire.dfy`): the peer handle. It holds the peer's pieces, the
  outstanding requests, the speeds, the choke and interest flags, the strike
  window, and a log of what was sent to the peer.
- `EngineEvents` (`events.dfy`): the engine's event log and interest
  notifications.
- `Selection` (`selection.dfy`) covers the selection list:
  - `select` and `deselect`;
  - the descending priority sort;
  - the garbage collector, which advances range cursors over complete
    pieces;
  - `shufflePriority`.
- `SpeedRank` (`speed_rank.dfy`): the speed-rank admission heuristic, in its
  corrected form (`lib/torrent-client.js`) and as written in the other two
  generations.
- `Scheduler` (`scheduler.dfy`) is the scheduler class. It covers:
  - the piece table and reservation lists;
  - interest;
  - request issuing with its cap of 5;
  - the validation pass;
  - hotswap;
  - the block callback with the digest check;
  - bad-piece strikes;
  - the verification pass;
  - `critical`.
- `Storage` (`storage.dfy`): the piece-to-file fragment table of
  `lib/storage.js`, with ranged reads and sliced writes over files held in
  memory.
- `StorageBuffer` (`storage_buffer.dfy`): the write-through shadow copies of
  `lib/storage-buffer.js` and of `bufferify` in `engine.js`.
- `FolderStore` (`folder_store.dfy`): the one-file-per-piece store of
  `storage.js` and its zero-padded file names.
- `ReadStream` (`file_stream.dfy`): the file read stream of
  `lib/file-stream.js`.
- `Rechoke` (`rechoke.dfy`): the choke and unchoke policy of
  `lib/rechoke.js`.
- `Blocklist` (`blocklist.dfy`): the AVL interval tree of
  `lib/blocklist.js`.
- `PeerBlock` (`peer_block.dfy`): the linear blocklist scan and the peer
  routing of `lib/dht.js`.
- `Metadata` (`metadata.dfy`): the `ut_metadata` exchange of
  `lib/exchange-metadata.js`, together with its copy in
  `lib/TorrentStream.js`.
- `Crawler` (`dht.dfy`): the DHT crawler of `dht.js`.
- `Wrappers` and `Bytes`: `Option`, and the Node.js `Buffer` operations
  (`concat`, `slice`).

Events and callbacks are appended to logs, `process.nextTick`
rescheduling is a pending-update flag, and SHA-1 is a function-typed
constant.

## Model

| member | source | states |
|---|---|---|
| Piece.Parts | lib/piece.js:5 | the block count is ceil(length / 16384): zero exactly for an empty piece, enough blocks to cover the length and no spare one |
| Piece.Remainder | lib/piece.js:6 | the last block's size lies in 1..16384, and full blocks plus the remainder make up the whole length |
| Piece.BlockLength | lib/piece.js:19-21 | a block size lies in 1..16384, and every block of the piece ends inside the piece |
| Piece.SizesSum | lib/piece.js:5-6 | the sizes of all blocks of a piece add up to its length |
| Piece.BlocksAbut | lib/piece.js:19-25 | block i ends exactly where block i+1 starts (offset i·16384) |
| Piece.Filled | lib/piece.js:46-47 | the count of filled slots never exceeds the slot count, and equals it exactly when every slot is filled |
| Piece.FilledUpdate | lib/piece.js:46-48 | filling an empty slot raises the filled count by exactly one |
| Piece.EmptyFilled | lib/piece.js:70 | a freshly allocated slot array has no filled slot |
| Piece.PieceBuffer.constructor | lib/piece.js:3-15 | a new buffer: nothing missing but the whole length, nothing buffered, reserved or flushed, no slot array yet |
| Piece.PieceBuffer.Size | lib/piece.js:19-21 | `size(i)` is the block length of block i of this piece |
| Piece.PieceBuffer.Init | lib/piece.js:67-74 | false once flushed; otherwise the slot array exists afterwards, allocated empty only on the first call; nothing else changes |
| Piece.PieceBuffer.Reserve | lib/piece.js:27-32 | the last cancelled index is popped first, else the next fresh index, else -1; -1 exactly when nothing can be reserved, and always once flushed |
| Piece.PieceBuffer.Cancel | lib/piece.js:34-37 | the index is pushed on the cancellation stack, unless the buffer is flushed, in which case nothing changes |
| Piece.PieceBuffer.Get | lib/piece.js:39-42 | the stored block, nothing for an empty slot and nothing once flushed |
| Piece.PieceBuffer.Set | lib/piece.js:44-55 | a filled slot is left as is; an empty one is filled, `buffered` rises by one, `missing` falls by the data length and the source is added once; the result is true exactly when every slot is filled; false and no change once flushed |
| Piece.PieceBuffer.Flush | lib/piece.js:57-65 | a piece comes out exactly when every block is stored and it was not flushed before: the blocks in index order cut or zero-filled to the length; the buffer is then flushed and a second flush yields nothing |
| Peer.ScanEndSpec | lib/torrent-client.js:323-325 | the seeder scan passes only pieces the peer has, never runs past the piece count, and stops short of it only at a piece the peer lacks |
| Peer.SeederIffComplete | lib/torrent-client.js:321-327 | a scan from piece 0 reaches the piece count exactly when the peer has every piece |
| Peer.Wire.constructor | lib/torrent-client.js:333 | a new connection is choked both ways, not interested, has sent nothing and has no strikes |
| Peer.Wire.SendRequest | lib/torrent-client.js:152 | the request joins the outstanding list and a request message goes out for the same piece, offset and length |
| Peer.Wire.SendChoke | lib/rechoke.js:64 | the wire is choked and one choke message is sent |
| Peer.Wire.SendUnchoke | lib/rechoke.js:65 | the wire is unchoked and one unchoke message is sent |
| Peer.Wire.SendInterested | lib/torrent-client.js:282 | the wire is marked interested and one `interested` message is sent |
| Peer.Wire.SendBitfield | engine.js:287 | one `bitfield` message carrying the given pieces is sent |
| Peer.Wire.CheckSeeder | lib/torrent-client.js:321-331 | with a bitfield of the wrong length nothing changes; otherwise the cursor kept between calls moves to the first piece the peer lacks (or the end) and the wire becomes a seeder once the cursor reaches the piece count |
| EngineEvents.InterestEvents | lib/torrent-client.js:44-56 | every wire is told interested or uninterested; an engine-level event follows exactly when the flag flips, and never in engine.js (engine.js:85-90) |
| EngineEvents.InterestNoRedundantEmit | lib/TorrentStream.js:551-566 | a second recomputation with the same answer emits no engine-level event |
| Bytes.Fit | lib/piece.js:59 | `Buffer.concat(list, length)` yields exactly `length` bytes: the concatenation cut to it, or kept as a prefix and zero-filled |
| Bytes.Slice | lib/storage-buffer.js:13 | `slice(a, b)` never fails: within bounds it is the sub-range, past the end it stops at the end, an inverted range is empty |
| Selection.ToNumber | engine.js:27-29 | `true` becomes 1, a falsy value 0 and any other number stays itself; the result is 0 exactly for a falsy argument |
| Selection.InsertDescProperties | engine.js:357-359 | inserting into a descending list keeps it descending and adds exactly the new range |
| Selection.SortDescCorrect | engine.js:357-359 | the priority sort yields a descending list that is a permutation of its input |
| Selection.SortDescKeepsSorted | engine.js:357-359 | the sort leaves a list that is already descending unchanged (ranges of equal priority keep their order) |
| Selection.SelectInserts | engine.js:349-360 | `select` on a sorted list appends the range with cursor 0 and normalised priority and sorts: the result is descending and holds the old ranges plus exactly the new one, placed behind every range of at least its priority |
| Selection.SelectShape | lib/TorrentStream.js:623-638 | on a sorted list `select` inserts the new range at a single position and moves nothing else |
| Selection.DeselectRemovesFirstMatch | engine.js:367-375 | `deselect` removes only the first range with the same bounds and normalised priority (`notify` is not compared); without a match the list is unchanged |
| Selection.DeselectInserted | lib/TorrentStream.js:640-652 | a matching range inserted in front of every other match is exactly the one `deselect` removes |
| Selection.SelectThenDeselect | lib/TorrentStream.js:623-652 | `select` followed by the matching `deselect` gives back the original list when no range of it had the same bounds and priority |
| Selection.AdvanceSound | lib/torrent-client.js:63 | the cursor moves only over complete pieces, never past `to - from`, and stops on `to` or on the first live piece |
| Selection.FinishedIff | lib/torrent-client.js:65-67 | a range is dropped exactly when every piece from its cursor to `to` is complete; a surviving range has its cursor on a live piece |
| Selection.Keep | lib/torrent-client.js:59-72 | the ranges gc keeps are never more than it was given |
| Selection.KeepExactly | lib/TorrentStream.js:572-584 | every kept range is an input range with its cursor advanced that is not finished, and every such range is kept |
| Selection.GcRunKeeps | lib/torrent-client.js:59-72 | the ranges the gc pass keeps do not depend on the events it fires or on the interest flag |
| Selection.GcAdvance | lib/torrent-client.js:60-71 | one iteration of gc (advance, `notify` on a move, drop with `notify` and an interest recomputation when finished) moves the pass from `j` to `j+1` handled ranges |
| Selection.GcKeptStep | lib/torrent-client.js:68-69 | a splice of the range at `i` leaves the kept ranges followed by the untouched rest, and an advanced range replaces itself in place |
| Selection.GcEnd | lib/torrent-client.js:74 | after the loop the list is exactly the kept ranges, and `idle` closes the event log exactly when it is empty |
| Selection.CursorScenario | lib/torrent-client.js:63-65 | a range over pieces 0..4 whose pieces 0 and 1 are complete gets cursor 2, stays, and fires `notify` once |
| Selection.CompleteSingleRangeDropped | lib/TorrentStream.js:576-587 | a one-piece range whose piece is complete is dropped on the first pass with `notify`, an interest recomputation and `idle` |
| Selection.RunEndBounds | lib/torrent-client.js:237-241 | the scan for the end of the run stays in the list, passes only non-zero priorities and stops at the list end or a zero priority |
| Selection.ShuffleMovesToRunEnd | lib/torrent-client.js:237-245 | `shufflePriority(i)` swaps entry i with the last entry of its non-zero run; every other entry stays and the list is a permutation of the old one |
| SpeedRank.NewRanker | lib/torrent-client.js:209-215 | a wire faster than 3·16384 gets the admit-everything ranker; any other gets its speed (0 read as 1), ten tries and the cursor `ptr` at 0 |
| SpeedRank.ScanTC | lib/torrent-client.js:217-233 | the scan never moves the cursor `ptr` back; an admission leaves it at the end of the wire list, a refusal leaves it on a counted peer (fast, faster than this wire, holding the piece) |
| SpeedRank.ScanEngine | engine.js:235-249 | as written (`missing -= x > 0`): an admission leaves the cursor `ptr` at the end, a refusal leaves it on a peer at least as fast that holds the piece |
| SpeedRank.RankAdmission | engine.js:235-236 | a fast wire, a wire whose tries are spent and a complete piece are always admitted; a refusal spends exactly one try and never moves the cursor `ptr` back |
| SpeedRank.AtMostTenRefusals | lib/torrent-client.js:214-230 | one ranker refuses at most ten pieces, whatever sequence of pieces it is asked about |
| SpeedRank.RefusalsBounded | lib/torrent-client.js:217-233 | a ranker never refuses more often than it has tries left |
| SpeedRank.ScanTCRefusesIffCovered | lib/torrent-client.js:220-230 | lib/torrent-client.js refuses exactly when some counted peer has the piece and the counted peers together deliver at least the missing bytes while this wire fetches five blocks |
| SpeedRank.DemandZero | lib/torrent-client.js:224-226 | with no counted peer nothing is delivered |
| SpeedRank.ScanEngineCountsPeers | lib/TorrentStream.js:425-428 | as written, a piece with `missing` > 0 is refused exactly when at least `missing` counted peers of non-zero speed exist: bytes are compared with a count of peers |
| SpeedRank.PrecedenceCounterexample | engine.js:244 | a wire of unknown speed, one other wire of 48 KiB/s with the piece and one block missing: lib/torrent-client.js refuses, engine.js and lib/TorrentStream.js admit |
| Scheduler.LastPieceLength | lib/torrent-client.js:33 | the last piece's length (the remainder of length by pieceLength, or pieceLength when it is 0) lies in 1..pieceLength |
| Scheduler.PieceLengthsSum | lib/TorrentStream.js:240-243 | with ceil(length / pieceLength) pieces, every piece but the last is pieceLength long and the piece lengths add up to the torrent's length |
| Scheduler.LiveOf | lib/torrent-client.js:358 | piece k counts as live exactly when it still has an assembly buffer |
| Scheduler.VerifyLogExactly | lib/torrent-client.js:357-368 | the verification loop emits only `verify` events, and `verify(k)` exactly for the pieces whose stored bytes pass and that were still incomplete |
| Scheduler.VerifyLogAscending | lib/torrent-client.js:357-368 | the loop announces each piece at most once and in ascending index order |
| Scheduler.ClaimedExactly | engine.js:383-404 | the bits set by the verification loop are exactly those of the passing pieces that were still incomplete |
| Scheduler.VerifiedEffect | lib/TorrentStream.js:292-307 | after the verification loop a piece has no buffer exactly when it had none or its stored bytes pass, and a bit is set exactly when it was set before or the piece passed while incomplete |
| Scheduler.VerifyScan | lib/torrent-client.js:357-368 | the loop over the piece table nulls every passing piece, collects the passing live pieces and announces them in order: the table, bit set and log of the whole loop |
| Scheduler.FirstFree | lib/torrent-client.js:142-143 | `r.indexOf(null)` (the length standing for -1): a free slot, with no free slot before it |
| Scheduler.EnlistPlacement | lib/torrent-client.js:142-144 | entering a wire fills the first free slot, appending only when there is none, and keeps every other slot |
| Scheduler.VictimIn | lib/torrent-client.js:99-112 | a victim is always an evictable holder: another wire, below the speed threshold and at most half as fast as the requester |
| Scheduler.VictimIsLastSlowest | lib/torrent-client.js:103-112 | there is no victim exactly when no holder is evictable; otherwise no evictable holder is slower and none after it is as slow |
| Scheduler.FindVictim | lib/torrent-client.js:99-112 | the victim loop finds exactly the victim `VictimIn` describes |
| Scheduler.Evict | lib/torrent-client.js:116-118 | every slot held by the victim is freed and every other slot is kept |
| Scheduler.EvictAll | lib/torrent-client.js:116-118 | the freeing loop yields exactly `Evict` of the list |
| Scheduler.BlocksOfMembers | lib/torrent-client.js:120-124 | the blocks cancelled for a piece are exactly `offset / 16384` of the victim's requests for that piece |
| Scheduler.CancelRequest | lib/torrent-client.js:121-123 | one request for the piece puts its block back on the cancellation stack (unless the buffer is flushed); a request for another piece changes nothing |
| Scheduler.BlockOfOffset | lib/torrent-client.js:123 | truncating offset(i) / 16384 to an integer gives back block i |
| Scheduler.CancelRequests | lib/torrent-client.js:120-124 | the cancel loop puts back, in order, the block of every request for the piece and nothing else |
| Scheduler.OthersOf | lib/torrent-client.js:221-226 | the ranker reads one speed and one has-piece flag per connected wire |
| Scheduler.Recent | lib/torrent-client.js:176-178 | pruning strikes never adds any |
| Scheduler.RecentExactly | lib/torrent-client.js:176-178 | pruning keeps exactly the strikes younger than 120000 ms |
| Scheduler.StruckMembers | lib/torrent-client.js:173-180 | after a strike the window ends with the new strike and holds exactly it and the earlier strikes still inside the window |
| Scheduler.StrikeSources | lib/torrent-client.js:173-185 | every source gets its strike window pruned and a strike at `now`, no other wire changes, and the sources with more than 3 strikes are blocked in order |
| Scheduler.StrikeAll | lib/torrent-client.js:173-180 | the strike loop updates exactly the sources' windows |
| Scheduler.BlockedOf | lib/torrent-client.js:182-184 | the block loop blocks, in order, exactly the sources with more than 3 strikes |
| Scheduler.SpanMembers | engine.js:345-347 | the indices marked from `piece` on with width n are exactly piece..piece+n-1 |
| Scheduler.CriticalSpanCases | lib/TorrentStream.js:617-620 | `critical(piece)` marks only `piece`, a positive width marks piece..piece+width-1, a negative one marks nothing |
| Scheduler.Engine.constructor | lib/torrent-client.js:30-39 | one fresh buffer per piece, each `pieceLength` long except the last (the remainder), nothing missing but the whole piece, empty reservation lists, empty selection, bitfield and log; engine.js is ready at once, the other two generations only when the start-up verification is skipped, in which case `onready` has already scheduled gc and set interest |
| Scheduler.Engine.Connect | lib/torrent-client.js:276-334 | a new wire joins the served wires; it is told `interested` when something is selected (engine.js first sends the bitfield), and in lib/torrent-client.js it starts with no strikes and is a seeder exactly when its full-length bitfield holds every piece |
| Scheduler.Engine.Welcome | engine.js:281-288 | the messages and per-wire state of `onwire`, per generation |
| Scheduler.Engine.Enroll | lib/torrent-client.js:339-340 | the wire is appended to the wires and the engine's invariant still holds |
| Scheduler.Engine.InterestChange | lib/torrent-client.js:44-56 | every wire is told whether the selection is non-empty, the flag becomes that answer (engine.js keeps none, engine.js:85-90) and an engine event fires only on a flip |
| Scheduler.Engine.Gc | lib/torrent-client.js:58-76 | the selection becomes exactly `Keep` of the old one, the log grows by the pass's `notify`/interest events closed by `idle` when nothing is left, and the flag is what the pass computes |
| Scheduler.Engine.GcSweep | lib/TorrentStream.js:572-586 | the loop over the selection ends in the state `GcRun` describes after every range is handled |
| Scheduler.Engine.GcVisit | engine.js:93-108 | one range: its cursor advanced, `notify` when it moved, dropped with `notify` and an interest recomputation when finished |
| Scheduler.Engine.AdvanceCursor | lib/torrent-client.js:63 | the cursor loop stops exactly where `Advance` does |
| Scheduler.Engine.CriticalHint | engine.js:345-347 | the critical set grows by exactly the width (1 when none is given) indices from `piece` on |
| Scheduler.Engine.OnPieceComplete | lib/torrent-client.js:78-92 | an already complete piece changes nothing; otherwise its buffer and reservation list go, its bit is set, `have` goes to every wire, `verify` and `download` are emitted, the piece is written and gc runs |
| Scheduler.Engine.DropPiece | lib/TorrentStream.js:527-529 | the piece's buffer and reservation list are nulled and its bit set, nothing else in the table changes |
| Scheduler.Engine.OnHotswap | lib/torrent-client.js:94-129 | succeeds exactly when hotswap is on, the requester does at least 16384 B/s, the piece is live and a victim exists; then the victim's slots are freed, its blocks for the piece go back on the cancellation stack and `hotswap` is emitted; on failure nothing changes |
| Scheduler.Engine.SwapOut | lib/TorrentStream.js:510-519 | the victim's slots are freed, its blocks cancelled, `hotswap(victim, wire, index)` emitted, and the buffer's other state kept |
| Scheduler.Engine.SetReservations | lib/torrent-client.js:116-118 | the piece's reservation list is replaced and nothing else |
| Scheduler.Engine.CancelBlocksOf | engine.js:154-158 | each of the victim's requests for the piece puts its block back on the piece's cancellation stack |
| Scheduler.Engine.OnRequest | lib/torrent-client.js:135-195 | false and no change for a complete piece; without hotswap, true exactly when a block can be reserved; on success the wire fills the first free slot and exactly one request for that block (offset i·16384, block size) is outstanding and sent; a refused call without hotswap leaves every piece's reservability as it was |
| Scheduler.Engine.ReserveBlock | engine.js:173 | `reserve` yields -1 exactly when no block can be reserved, otherwise a block index of the piece; a -1 leaves every piece's reservability as it was |
| Scheduler.Engine.Issue | engine.js:178-186 | the wire enters the first free slot and a request for block `res` at its offset and size is outstanding and sent |
| Scheduler.Engine.Select | lib/torrent-client.js:247-264 | true exactly when the wire ends with 5 outstanding requests; a full wire is left alone; old requests stay, new ones are only for pieces the peer has and never exceed 5; only lib/torrent-client.js reorders the selection, and then by one `shufflePriority` of a prioritised range |
| Scheduler.Engine.TryPiece | engine.js:262-264 | a piece the peer lacks changes nothing and a piece the ranker refuses gets no request; requests added are for that piece only and stay within 5 |
| Scheduler.Engine.FillWith | lib/torrent-client.js:256 | the fill loop adds only requests for that piece and stops at 5 |
| Scheduler.Engine.SelectFrom | lib/torrent-client.js:253-260 | one range of `select`: reports full exactly when the wire reaches 5 outstanding requests; old requests stay and new ones are for pieces the peer has inside that range's window; a wire that is not full leaves the selection as it was, and a full one may only rotate a prioritised range, never changing the selection's multiset |
| Scheduler.Engine.Rotate | lib/torrent-client.js:258 | the selection becomes `Shuffle` of the old one at a prioritised index, and is a permutation of it |
| Scheduler.Engine.ShufflePriority | lib/torrent-client.js:237-245 | the selection becomes exactly `Shuffle` of the old one |
| Scheduler.Engine.OnValidateWire | engine.js:215-225 | a wire with outstanding requests is left alone; otherwise no request is issued exactly when `ValidateScan` of the old selection finds no piece the peer has and that can be reserved, and else one request for the piece it finds: the ranges last to first, each window from `to` down to the cursor |
| Scheduler.Engine.ValidateRange | engine.js:220-223 | one range scanned from `to` down to the cursor: no request exactly when `ScanDown` finds no piece the peer has and that can be reserved (reservations then untouched), else a single request for the piece it finds, which the peer has and which lies in the window |
| Scheduler.ScanDownSpec | engine.js:220-223 | the inner scan finds nothing exactly when no piece between the cursor and `to` qualifies, and otherwise the highest one that does |
| Scheduler.ValidateScanSpec | engine.js:218-224 | the whole scan finds nothing exactly when no range's window holds a qualifying piece; otherwise it finds a qualifying piece of some range, with none above it in that range and none in any later range |
| Scheduler.Engine.OnUpdateWire | lib/torrent-client.js:266-270 | a choking peer gets nothing; old requests stay and new ones are for pieces the peer has, within 5; a wire that has delivered nothing gets exactly the outcome of `onvalidatewire` (`Validated` against the scan of the state before the call) |
| Scheduler.Engine.OnUpdate | lib/torrent-client.js:272-274 | every wire only gains requests, a choking one none, and none goes beyond 5 |
| Scheduler.Engine.OnBlock | lib/torrent-client.js:152-192 | the answered request leaves the wire; a stale buffer only reschedules, an error returns the block to the stack, a stored block with more to come changes nothing else; a corrupt piece strikes (lib/torrent-client.js) exactly its sources; an update is scheduled except where lib/TorrentStream.js throws |
| Scheduler.Engine.Respond | lib/TorrentStream.js:455-476 | the callback once the request is off the wire: the same outcomes as `OnBlock`, with the piece table, log, bitfield and store as `Resolved` states |
| Scheduler.Engine.Accept | engine.js:196-207 | `set`, then on a whole piece the digest check: stored, completed (piece dropped, bit set, written) or corrupt (fresh buffer, `invalid-piece`) |
| Scheduler.Engine.Conclude | lib/torrent-client.js:165-191 | the digest decides: a match completes the piece, a mismatch starts it afresh (or throws in lib/TorrentStream.js) and strikes its sources in lib/torrent-client.js |
| Scheduler.Engine.Reject | lib/torrent-client.js:168-187 | a piece failing its check gets a fresh buffer of the same length with `invalid-piece` and strikes; lib/TorrentStream.js instead leaves the flushed buffer and records the `t.piece` TypeError |
| Scheduler.Engine.Renew | lib/torrent-client.js:169-185 | a fresh buffer of the same length replaces the piece, `invalid-piece` is emitted, an update scheduled and, in lib/torrent-client.js, the sources struck and the ones over the limit blocked |
| Scheduler.Engine.Penalize | lib/torrent-client.js:173-185 | in lib/torrent-client.js each source's window is pruned and struck and the overflowing ones blocked; elsewhere nothing changes |
| Scheduler.Engine.Restart | engine.js:201-203 | `pieces[index] = piece(p.length)`, `invalid-piece` emitted, an update scheduled |
| Scheduler.Engine.DropRequest | lib/torrent-client.js:152 | the answered request leaves the wire's outstanding list and the others keep their order |
| Scheduler.Engine.ClearSlot | lib/torrent-client.js:153 | the slot is freed only if the wire still holds it |
| Scheduler.Engine.CancelBlock | lib/torrent-client.js:157-161 | a failed request puts its block back on the piece's cancellation stack |
| Scheduler.Engine.StoreBlock | lib/torrent-client.js:163 | true exactly when every block of the piece is stored; the sources only gain the answering wire |
| Scheduler.Engine.FlushPiece | lib/torrent-client.js:165-166 | the flushed piece has the piece length, the buffer is spent, and the sources are the distinct wires recorded before |
| Scheduler.Engine.DiscardPiece | lib/torrent-client.js:169 | a fresh buffer of the same length replaces the piece, with every block reservable again |
| Scheduler.Engine.Passes | engine.js:81-83 | piece k passes exactly when the store gave bytes for it whose digest is the torrent's digest for k |
| Scheduler.Engine.VerifyPass | engine.js:383-404 | the table, bitfield and log after the loop are `Nulled`, the old bits plus `Claimed`, and `VerifyLog` of the passing pieces |
| Scheduler.Engine.VerifyAll | lib/torrent-client.js:338-368 | the verification loop, then gc in engine.js, and in lib/torrent-client.js and lib/TorrentStream.js the engine ready, gc scheduled and interest recomputed |
| Scheduler.Engine.VerifyDone | lib/TorrentStream.js:309-316 | after the loop engine.js runs gc; the others mark the engine ready and refresh |
| Scheduler.Engine.Refresh | lib/TorrentStream.js:541-547 | nothing happens before the engine is ready; then gc is scheduled, interest recomputed and every wire updated; the selection keeps its order, except that lib/torrent-client.js's `shufflePriority` may permute it |
| Scheduler.Engine.SelectRange | lib/TorrentStream.js:623-638 | the selection becomes `Select` of the old one (the range joins in priority order), up to the permutation of lib/torrent-client.js's shuffle; once ready, gc is scheduled and interest becomes true |
| Scheduler.Engine.DeselectRange | engine.js:367-379 | the selection becomes `Deselect` of the old one (the first matching range leaves it), up to the permutation of lib/torrent-client.js's shuffle; interest follows the remaining selection; engine.js schedules no gc here, while the other two generations, once ready, do |
| Scheduler.Engine.Unselect | engine.js:368-376 | the splice loop leaves exactly `Deselect` of the selection |
| Storage.PieceStart | lib/storage.js:49 | a piece of non-negative index starts at a non-negative byte (it is `p * pieceLength`, `PieceStartIsProduct`) |
| Storage.CoversRange | lib/storage.js:25-26 | the piece range `floor(fileStart / pl) .. floor((fileEnd - 1) / pl)` is exactly the set of pieces that share a byte with the file (the same range as lib/TorrentStream.js:268-269) |
| Storage.BelowEnd | lib/storage.js:25 | piece p ends after byte x exactly when x's piece is at most p |
| Storage.AboveStart | lib/storage.js:26 | piece p starts before byte y exactly when p is at most the piece of byte y-1 |
| Storage.Frag | lib/storage.js:49-54 | a fragment has `from = max(0, fileStart - pieceStart)`, `to = min(pl, fileEnd - pieceStart)`, `offset = max(0, pieceStart - fileStart)`, with from ≤ to ≤ pl and no more bytes than the file |
| Storage.PieceFrags | lib/storage.js:21-65 | the fragments of a piece name only files of the torrent and lie inside the piece |
| Storage.PieceFragsSnoc | lib/storage.js:21 | a further file only appends its own fragment, if it has one, to each piece's list |
| Storage.PieceFragsOrdered | lib/storage.js:56-58 | a piece's fragments are in strictly increasing file order |
| Storage.PieceFragsTile | lib/storage.js:48-64 | with files laid out back to back, a piece's fragments tile the piece without gap or overlap |
| Storage.TileCons | lib/storage.js:52-53 | a file's fragment tiles the piece from the file's start to its end, both clamped to the piece |
| Storage.PieceFragsInPiece | lib/storage.js:53 | every fragment ends within the piece's own size |
| Storage.FirstFragStartsPiece | lib/storage.js:52 | the first fragment of any piece starts at the piece's byte 0 |
| Storage.PieceFragsAreCovers | lib/storage.js:48-58 | each fragment in a piece's list is the `Frag` of a file that covers the piece |
| Storage.FragNonEmpty | lib/storage.js:52-53 | for a non-empty file, 0 ≤ from < to ≤ pieceLength |
| Storage.FragsAdjacent | lib/storage.js:52-54 | a file's fragments in consecutive pieces continue each other in the file |
| Storage.FileBytesInSpan | lib/storage.js:48-54 | n consecutive pieces hold exactly the file bytes between their bounds |
| Storage.FileBytesTotal | lib/storage.js:48-65 | a file's fragment sizes over its piece range add up to the file's length |
| Storage.Overlay | lib/storage.js:137 | `file.write(offset, data)` leaves the data at that offset, growing the file as needed |
| Storage.WriteAll | lib/storage.js:130-141 | the writes keep every file that existed |
| Storage.WriteAllOther | lib/storage.js:134-137 | a file that no fragment names keeps its contents |
| Storage.WriteAllHolds | lib/storage.js:130-141 | after the writes every fragment's file holds `buffer.slice(from, to)` at its offset |
| Storage.Clip | lib/storage.js:106-112 | a ranged read cuts a fragment to the range and moves its file offset by as much as its start moved |
| Storage.Filter | lib/storage.js:82-84 | the filter keeps only fragments that overlap the range |
| Storage.ReadPart | lib/storage.js:114-116 | a successful part read yields exactly `to - from` bytes |
| Storage.ClipAllFilter | lib/storage.js:82-112 | clipping what the filter kept is clipping the whole list |
| Storage.ReadAllStep | lib/storage.js:95-117 | one step of the read loop over a fragment holding its slice appends that slice, clipped |
| Storage.ReadAllTiled | lib/storage.js:91-120 | over fragments that tile a range and hold a buffer's bytes, a clipped read gives the buffer's bytes of the clipped range |
| Storage.ReadAllWhole | lib/storage.js:91-120 | over such fragments an unclipped read gives the whole range of the buffer |
| Storage.FilterNone | lib/storage.js:82-86 | a range that starts after every fragment matches none |
| Storage.TilesFilterNonEmpty | lib/storage.js:86 | a range that starts inside tiled fragments always matches one |
| Storage.AddFile | lib/storage.js:21-65 | one pass of the `forEach` body turns the table of the first i files into the table of the first i+1 |
| Storage.PartialStep | lib/storage.js:56-58 | pushing file i's fragment onto piece p extends the partial table by that piece |
| Storage.PartialDone | lib/storage.js:48 | once every piece the file spans has its fragment, the table is that of one more file |
| Storage.TableIsOk | lib/storage.js:56-64 | every table entry is a non-empty, file-ordered list of fragments inside the piece |
| Storage.WriteThenRead | lib/storage.js:123-142 | writing a piece-sized buffer and reading the whole piece gives the buffer back |
| Storage.WriteThenReadRange | lib/storage.js:74-118 | a ranged read after a write: an empty range gives an empty buffer, a range starting inside the piece gives bytes offset..offset+length (to the piece end when the length is 0), a range past the piece is an error |
| Storage.ReadSpecNoMatch | lib/storage.js:86 | a range no fragment overlaps is the "no file matching" error |
| Storage.TiledWriteThenRead | lib/storage.js:82-118 | over fragments tiling a buffer, a read of any range that starts inside it gives the bytes written there |
| Storage.TestPieceTail | test/storage.js:51-69 | one 36115-byte file in 32768-byte pieces: piece 1 holds 3347 bytes and reading it from 3341 gives its last six bytes |
| Storage.Store.constructor | lib/storage.js:10-66 | the store starts open over the given files and folder contents, with `piecesMap` built by the file loop |
| Storage.Store.Read | lib/storage.js:68-121 | `read(index, range)` calls back with exactly `ReadSpec`: empty for an empty range, errors for a missing entry or no overlapping fragment, an empty buffer when a file does not exist, otherwise the clipped fragments read in order |
| Storage.Store.ReadTargets | lib/storage.js:91-120 | the `next` loop reads each target, clipped when ranged, and joins the buffers |
| Storage.Store.Write | lib/storage.js:123-142 | writes happen exactly when the piece has an entry and the store is open; each fragment then gets its slice, and otherwise no file changes |
| Storage.Store.WriteTargets | lib/storage.js:130-139 | the write loop applies every fragment's slice in order |
| Storage.Store.Close | lib/storage.js:155-170 | the store is closed afterwards, and only the first call does the closing |
| Storage.Store.Remove | lib/storage.js:144-153 | with no files nothing happens; otherwise the store is closed and the folder's files deleted |
| StorageBuffer.ShadowSlice | lib/storage-buffer.js:10-13 | with a range the shadow copy answers `slice(offset, offset + (length or the copy's length))`, clamped to the copy; without one, the whole copy |
| StorageBuffer.ShadowMatchesStore | lib/storage-buffer.js:13-14 | for the piece just written, the shadow copy answers a ranged read with the bytes the store itself would give, and with an empty buffer where the store would fail |
| StorageBuffer.SliceAsStoreRange | lib/storage-buffer.js:13 | the shadow slice is empty for an empty range or a start past the copy, and otherwise runs from the offset to the clamped end |
| StorageBuffer.ShadowStore.constructor | lib/storage-buffer.js:3-5 | the wrapper starts with no shadow copies and no writes in flight |
| StorageBuffer.ShadowStore.Read | lib/storage-buffer.js:7-15 | a piece with a shadow copy is answered from the copy, any other from the store's own read of the same range |
| StorageBuffer.ShadowStore.Write | lib/storage-buffer.js:17-24 | the buffer becomes the piece's shadow copy, and a store write of it is queued with the store's outcome |
| StorageBuffer.ShadowStore.Written | lib/storage-buffer.js:20-23 | when a write calls back the piece's copy is dropped, whatever the outcome, and the outcome is passed on |
| StorageBuffer.ShadowStore.Close | lib/storage-buffer.js:26-28 | closing the wrapper closes the store; only the first close does anything |
| StorageBuffer.ShadowStore.Remove | lib/storage-buffer.js:30-32 | removing through the wrapper is the store's own remove |
| StorageBuffer.Bufferified.constructor | engine.js:31-33 | `bufferify(store)` starts with no shadow copies |
| StorageBuffer.Bufferified.Read | engine.js:43-46 | a piece with a shadow copy is answered from the copy, any other from its piece file |
| StorageBuffer.Bufferified.Write | engine.js:35-41 | the buffer becomes the piece's shadow copy and is written to the piece's file |
| StorageBuffer.Bufferified.Written | engine.js:37-40 | the folder's callback drops the piece's copy |
| StorageBuffer.Bufferified.Destroy | engine.js:48-51 | destroying the wrapper removes every piece file |
| FolderStore.DigitChar | storage.js:18 | a digit below ten is one character between `0` and `9`, `0` only for zero |
| FolderStore.Decimal | storage.js:18 | `'' + i` is a non-empty string of decimal digits |
| FolderStore.ValueOfDecimal | storage.js:18 | reading the digits of `'' + i` back gives i |
| FolderStore.DecimalInjective | storage.js:18 | different indices have different decimal strings |
| FolderStore.DecimalLeading | storage.js:18 | only zero is written with a leading `0` |
| FolderStore.DecimalLength | storage.js:18 | i has at most k digits exactly when i < 10^k |
| FolderStore.PadWidth | storage.js:18 | `'00000000000'.slice(0, 10 - len)` keeps 10 - len zeros for up to ten digits, and never more than the eleven there are |
| FolderStore.PadTen | storage.js:17-19 | an index below 10^10 is named by ten characters: leading zeros then its digits |
| FolderStore.LeadingZerosOf | storage.js:18 | zeros in front of a number's digits add one more leading zero only when the number is zero |
| FolderStore.ZerosThenDigits | storage.js:18 | a run of zeros followed by a number's digits determines the number |
| FolderStore.PadInjective | storage.js:17-19 | distinct pieces get distinct file names, so no two pieces share a file |
| FolderStore.WriteThenLookup | storage.js:21-34 | a piece written to the folder is read back, and every other piece reads as before |
| FolderStore.Folder.constructor | storage.js:10-11 | the store starts over the folder's current contents |
| FolderStore.Folder.Read | storage.js:21-26 | reading piece i gives the file named `pad(i)`, or the missing-file error when there is none |
| FolderStore.Folder.Write | storage.js:28-34 | writing piece i replaces the file named `pad(i)` and nothing else |
| FolderStore.Folder.Destroy | storage.js:36-42 | destroying removes every file of the folder |
| ReadStream.Int32 | lib/file-stream.js:43-44 | a bitwise or of x with 0 gives a signed 32-bit value, equal to x whenever x already fits |
| ReadStream.PieceOf | lib/file-stream.js:43-44 | dividing by pieceLength then or-ing with 0 is the floor quotient for offsets below 2^31 pieces, and 0 for a negative offset within one piece |
| ReadStream.QuotientFits | lib/file-stream.js:43 | an offset below 2^31 pieces has a quotient that fits 32 bits, so or-ing with 0 does not wrap it |
| ReadStream.SmallQuotient | lib/file-stream.js:52 | an offset inside the first piece has quotient 0 |
| ReadStream.CriticalCount | lib/file-stream.js:51 | the critical width (the smaller of 1 MiB / pl and 2, truncated to an integer) is at most 2, is 2 exactly for pieces of at most 512 KiB, and 0 exactly for pieces over 1 MiB |
| ReadStream.FirstOffset | lib/file-stream.js:39-52 | the start byte's place within its first piece is between 0 and the piece length |
| ReadStream.Trim | lib/file-stream.js:78-83 | the callback's trimming keeps the buffer's bytes from `_offset`, at most `_missing` of them |
| ReadStream.TrimPiece | lib/file-stream.js:78-85 | trimming a piece at the read position gives the torrent's next bytes, running to the piece's end when they do not finish the range |
| ReadStream.TrimNonEmpty | lib/file-stream.js:83 | while bytes are missing, a piece read at a position inside it gives at least one byte |
| ReadStream.FileStream.constructor | lib/file-stream.js:31-53 | the defaults for start and end, the length, the first and last piece by truncating division, the critical count and the offset into the first piece; the stream starts idle with nothing pushed |
| ReadStream.FileStream.Read | lib/file-stream.js:57-61 | a stream already reading does nothing; otherwise it starts reading and asks exactly what `notify` asks |
| ReadStream.NotifyRequest | lib/file-stream.js:63-71 | `notify` fetches the next piece exactly when bytes are missing, the piece is verified and no fetch is in flight, and marks it and the following ones critical exactly when bytes are missing and it is unverified |
| ReadStream.FileStream.Notify | lib/file-stream.js:63-96 | a stream not reading asks for nothing; otherwise it asks `NotifyRequest`, and a fetch moves on to the next piece and marks the fetch in flight |
| ReadStream.FileStream.OnFetched | lib/file-stream.js:71-95 | the fetch ends; a stream destroyed or no longer reading drops the result, an error destroys the stream, a buffer is delivered |
| ReadStream.FileStream.Deliver | lib/file-stream.js:78-94 | the trimmed buffer is counted off `_missing` and pushed; the end is pushed when nothing is missing, and otherwise the stream stops reading until asked again |
| ReadStream.FileStream.Destroy | lib/file-stream.js:98-102 | the stream is destroyed afterwards and `close` is emitted only by the first call |
| ReadStream.DeliverTracks | lib/file-stream.js:71-95 | delivering the piece being fetched keeps the pushed bytes equal to the torrent's bytes from the start of the range |
| ReadStream.PushPiece | lib/file-stream.js:83-94 | pushing the next bytes keeps the pushed bytes the torrent's bytes from the range start and shrinks `_missing`; a push that does not finish the range leaves the position at the next piece |
| ReadStream.AppendChunk | lib/file-stream.js:88-94 | the bytes pushed so far followed by the next bytes are the longer run of the torrent |
| ReadStream.TestStreamFromOffset | test/storage.js:33-40 | a 36115-byte file in 32768-byte pieces read from byte 36109 starts in piece 1, skips 3341 bytes and wants 6, which are that piece's last six bytes, and then ends |
| Rechoke.Views | lib/rechoke.js:26-39 | the cycle reads one view per wire, in wire order: seeder flag, speeds, interest and choking state |
| Rechoke.CompareIsRanking | lib/rechoke.js:4-13 | `rechokeSort` puts a first exactly when it has the higher download speed, then the higher upload speed, then was unchoked, then the lower salt; it returns 0 exactly on a tie of all four |
| Rechoke.CompareTransitive | lib/rechoke.js:4-13 | the comparator is a total preorder, so the sort is well defined |
| Rechoke.SortSpec | lib/rechoke.js:42 | `peers.sort(rechokeSort)` gives a ranked permutation of the peers |
| Rechoke.SortDistinct | lib/rechoke.js:42 | sorting keeps every wire at most once |
| Rechoke.CandidatesEntries | lib/rechoke.js:26-39 | each record pushed belongs to a wire that is neither a seeder nor the optimistic pin, carries that wire's speeds, interest and choking state, and starts choked |
| Rechoke.CandidatesInOrder | lib/rechoke.js:26 | records are pushed in wire order |
| Rechoke.CandidatesComplete | lib/rechoke.js:26-39 | every wire that is neither a seeder nor the pin gets a record |
| Rechoke.CutoffIsFirstFull | lib/rechoke.js:44-49 | the unchoke loop stops right after the `rechokeSlots`-th interested peer, or at the end: the peers before it hold `min(slots, interested)` interested ones and every shorter prefix fewer than `slots` |
| Rechoke.Pool | lib/rechoke.js:52 | the optimistic candidates are exactly the interested peers from the cutoff on |
| Rechoke.Pick | lib/rechoke.js:51-60 | an optimistic pick happens only with no pin, a peer left over and a slot; it is an interested peer past the cutoff; without a pin-free slot there is none |
| Rechoke.UnchokedInterested | lib/rechoke.js:44-60 | after a cycle the interested unchoked peers are `min(slots, interested)` by rank plus at most the optimistic pick |
| Rechoke.NoSlotsChokesAll | lib/rechoke.js:44-60 | with `rechokeSlots` 0 every ranked peer ends choked |
| Rechoke.Toggle | lib/rechoke.js:62-67 | a peer is sent `choke` exactly when it goes from unchoked to choked, `unchoke` exactly for the reverse, and nothing when its state is unchanged |
| Rechoke.Pinned | lib/rechoke.js:21-22 | while the countdown is running the pin stays; when it is 0 the pin is cleared |
| Rechoke.Rechoker.constructor | lib/rechoke.js:15-17 | a rechoker starts with no optimistic pin and a zero countdown |
| Rechoke.Rechoker.Rechoke | lib/rechoke.js:20-68 | one `rechoke()`: the countdown and pin advance, seeders are choked, the ranked peers end in their decided state, only changes are sent, and a pick becomes the new pin for two cycles |
| Rechoke.Cycle | lib/rechoke.js:24-67 | the ranked peers are the sorted candidates, the pick is `Pick` on them, seeders end choked, the pin keeps its state, and every ranked wire ends in its decided state |
| Rechoke.DecidedEntries | lib/rechoke.js:44-60 | the decided records name distinct ranked wires, each with its choking state at the start of the cycle |
| Rechoke.RankedEntries | lib/rechoke.js:26-42 | the ranked list holds each ranked wire's record once |
| Rechoke.Decide | lib/rechoke.js:44-60 | the unchoke loop and the optimistic unchoke give the decided records and the pick |
| Rechoke.ChokeSeeders | lib/rechoke.js:26-40 | the `forEach` pass chokes seeders not yet choked, sends nothing else, and pushes exactly the candidate records |
| Rechoke.ChokeSeeder | lib/rechoke.js:27-28 | a seeder ends choked, and `choke` is sent only if it was unchoked |
| Rechoke.UnchokeByRank | lib/rechoke.js:44-49 | the loop ends at the cutoff; the peers before it are unchoked and the rest stay choked |
| Rechoke.SendChanges | lib/rechoke.js:62-67 | each ranked wire is sent its toggle and takes its decided state; wires without a record are untouched |
| Rechoke.Send | lib/rechoke.js:63-66 | one peer ends in its decided state, having been sent exactly its toggle |
| Blocklist.Update | lib/blocklist.js:68-73 | `update()` sets `depth` to one more than the deeper child's and `max` to the largest of the node's own end and its children's `max`, and changes nothing else |
| Blocklist.RotateLLInorder | lib/blocklist.js:29-46 | `rotateLL` keeps the ranges in the same order |
| Blocklist.RotateRRInorder | lib/blocklist.js:48-66 | `rotateRR` keeps the ranges in the same order |
| Blocklist.BalanceInorder | lib/blocklist.js:12-27 | `balance()`, with either double rotation, keeps the ranges in the same order |
| Blocklist.BalanceLL | lib/blocklist.js:16-20 | the single rotation of the left-heavy case restores balance and right cached fields |
| Blocklist.BalanceLR | lib/blocklist.js:17-20 | the double rotation of the left-right case restores balance |
| Blocklist.BalanceRR | lib/blocklist.js:21-25 | the single rotation of the right-heavy case restores balance and right cached fields |
| Blocklist.BalanceRL | lib/blocklist.js:22-25 | the double rotation of the right-left case restores balance |
| Blocklist.BalanceShape | lib/blocklist.js:12-73 | on a node whose subtrees are balanced and differ in depth by at most two, `balance()` then `update()` gives a balanced node with right cached fields, no deeper than before |
| Blocklist.InsertAt | lib/blocklist.js:79-81 | adding at a held start keeps the larger of the two ends |
| Blocklist.AddInorder | lib/blocklist.js:75-102 | `add` on a search tree inserts the range into the ordered list of its ranges |
| Blocklist.AddShape | lib/blocklist.js:75-102 | `add` keeps a balanced tree balanced with right cached fields, and grows it by at most one level |
| Blocklist.AddUnchanged | lib/blocklist.js:79-101 | when `add` reports no update the tree is untouched |
| Blocklist.AddReports | lib/blocklist.js:75-102 | `add` reports an update exactly when the range was not already held at that start |
| Blocklist.InsertSorted | lib/blocklist.js:75-98 | adding keeps the starts strictly increasing |
| Blocklist.InsertProper | lib/blocklist.js:75-98 | adding a range whose start is at most its end keeps every range so |
| Blocklist.InsertCovers | lib/blocklist.js:75-98 | after adding `[start, end]` an address is covered exactly when it was before or lies in the new range |
| Blocklist.InsertAbsorbed | lib/blocklist.js:79 | adding a range already held at that start with a larger end changes nothing |
| Blocklist.MaxIsLargestEnd | lib/blocklist.js:72 | with right cached fields, a node's `max` is the largest end in its subtree |
| Blocklist.ContainsStep | lib/blocklist.js:106-108 | from a node whose own range misses the address, the walk goes left exactly when the left subtree reaches it, and nothing is lost by the choice |
| Blocklist.NodeContains | lib/blocklist.js:104-111 | `contains(addr)` is true exactly when some range of the tree holds the address |
| Blocklist.ToLong | lib/blocklist.js:124-137 | a number is used as it is, an address string is converted, and a missing value throws |
| Blocklist.Check | lib/blocklist.js:117-129 | a falsy first argument is ignored; a range the checks accept lies within 0..4294967295 with its start at most its end |
| Blocklist.CheckNumbers | lib/blocklist.js:126-129 | two numbers are added exactly when they form a range of IPv4 addresses, and otherwise throw |
| Blocklist.CheckSingle | lib/blocklist.js:126 | an address given alone blocks exactly itself |
| Blocklist.CheckObject | lib/blocklist.js:119-122 | an object supplies both ends, whatever the second argument is |
| Blocklist.Taken | lib/blocklist.js:141-145 | loading takes the blocks up to the first one whose checks throw |
| Blocklist.LoadedCovers | lib/blocklist.js:141-145 | after loading, an address is covered exactly when it was before or some block before the first rejected one holds it; loading fails exactly when a block is rejected |
| Blocklist.LoadedValid | lib/blocklist.js:141-145 | loading keeps the ranges ordered and proper |
| Blocklist.BlockSet.constructor | lib/blocklist.js:113-115 | a blocklist starts empty |
| Blocklist.BlockSet.Add | lib/blocklist.js:117-133 | `add` makes the checks; an accepted range goes into the tree, so the covered addresses grow by exactly that range; anything else leaves the tree as it was |
| Blocklist.BlockSet.Load | lib/blocklist.js:141-145 | the array is added block by block and a block that throws stops the loading |
| Blocklist.BlockSet.Contains | lib/blocklist.js:135-139 | an empty list contains nothing; otherwise the answer is whether some range holds the address, and a missing address throws |
| PeerBlock.ReasonOf | lib/dht.js:18 | the reason given for a block: the entry's reason when it is a non-empty string, otherwise plain `true` |
| PeerBlock.FirstMatchSpec | lib/dht.js:12-20 | the scan finds nothing exactly when no entry with both bounds holds the address; otherwise it gives the reason of the earliest entry that does |
| PeerBlock.IsPeerBlocked | lib/dht.js:8-23 | `isPeerBlocked(addr)` skips entries missing a bound, stops at the first match, and returns exactly the first match's reason |
| PeerBlock.IsPeerBlockedIn | lib/TorrentStream.js:598-614 | the same scan over the list the caller gives, or the configured one when none is given |
| PeerBlock.Router.constructor | lib/dht.js:6-7 | the router starts with its blocklist, no events and no connections |
| PeerBlock.Router.OnPeer | lib/dht.js:28-36 | with a non-empty blocklist and a match, `blocked-peer` is emitted with the reason and no connection is made; otherwise `peer` is emitted and the peer connected to |
| PeerBlock.ConnectedIffUncovered | lib/TorrentStream.js:115-122 | a peer is connected to exactly when no blocklist entry holds its address |
| Metadata.FindPair | lib/exchange-metadata.js:43 | `indexOf('ee')` gives the first pair of `e` bytes at or after the start, or -1 when there is none |
| Metadata.Header | lib/exchange-metadata.js:44 | the bytes handed to the decoder are a prefix of the message: up to and including the first `ee`, or all of it |
| Metadata.SplitRoundTrip | lib/exchange-metadata.js:43-62 | a header whose only `ee` is its last two bytes comes apart from any payload: the header goes to the decoder and the rest is stored as the piece |
| Metadata.NoDelimiter | lib/exchange-metadata.js:44-62 | without an `ee` the whole message is decoded, and a data message stores it minus its first byte (`slice(-1 + 2)`) |
| Metadata.CountBound | lib/exchange-metadata.js:63-65 | `for (i = 0; i * 16384 < size; i++)` visits exactly the pieces below the announced size |
| Metadata.Store | lib/exchange-metadata.js:62 | `metadataPieces[piece] = data` sets that piece, keeps every other, and grows the array with holes up to it |
| Metadata.Join | lib/exchange-metadata.js:67 | `Buffer.concat` joins the pieces in index order, and throws exactly when the array has a hole |
| Metadata.MissingSpec | lib/exchange-metadata.js:82-85 | the pieces requested are exactly the absent ones below the count, each once, in ascending order |
| Metadata.Requests | lib/exchange-metadata.js:84 | one request message per wanted piece, in order, on the peer's channel |
| Metadata.Exchange.constructor | lib/exchange-metadata.js:20-21 | the exchange starts with no pieces, no metadata and nothing sent |
| Metadata.Exchange.Greet | lib/exchange-metadata.js:88-89 | a wire that speaks the extension protocol is sent the `ut_metadata` handshake, with `metadata_size` once the metadata is known; any other wire nothing |
| Metadata.Exchange.OnHandshake | lib/exchange-metadata.js:25-86 | a handshake with id 0 that decodes and offers `ut_metadata` installs a handler on the peer's channel; when the size is announced, non-zero, at most 4 MiB and the metadata is unknown, every missing piece is requested; otherwise nothing is sent; an undecodable handshake throws exactly in lib/TorrentStream.js, which decodes it outside a `try` (line 156) |
| Metadata.Exchange.RequestMissing | lib/exchange-metadata.js:82-85 | the loop sends exactly the requests for the missing pieces |
| Metadata.Exchange.AllIn | lib/exchange-metadata.js:63-65 | the check is true exactly when every piece below the count is present |
| Metadata.Exchange.OnMessage | lib/exchange-metadata.js:37-77 | messages for another id, undecodable ones, a negative piece and rejects are ignored; a request is answered; a data message before the metadata is known is stored, and once every piece is in the joined pieces become the metadata if their hash matches and are all thrown away if not; the metadata, once known, never changes |
| Metadata.Stored | lib/exchange-metadata.js:62 | a data message with a piece number stores its payload there and keeps every other piece; one without leaves the indices untouched |
| Metadata.Answer | lib/exchange-metadata.js:53-58 | a request is rejected exactly when the metadata is unknown; otherwise it is answered with the piece's 16 KiB slice of the metadata |
| Metadata.AnswerPiece | lib/exchange-metadata.js:55-57 | the answer to piece i is bytes `i * 16384` up to the next piece or the end |
| Metadata.AnswersJoin | lib/exchange-metadata.js:55-57 | the answers to every piece below the count, joined, are the metadata itself |
| Crawler.AfterColon | dht.js:18 | `addr.split(':')[1]` is missing exactly when the address has no colon |
| Crawler.UpToColon | dht.js:136 | `addr.split(':')[0]` is the colon-free prefix of the address |
| Crawler.ValidHostPort | dht.js:17-20 | `host:port` with a colon-free host is valid exactly when 0 < port < 65535 |
| Crawler.RenderValid | dht.js:25-28 | a node contact rendered by `compact2string` is kept exactly when its port is neither 0 nor 65535 |
| Crawler.Valids | dht.js:28-36 | the filter keeps exactly the valid addresses, in order |
| Crawler.Records | dht.js:25-26 | one 6-byte contact per whole 26-byte record, taken from bytes 20-26 of the record |
| Crawler.NodeInfoSpec | dht.js:22-32 | every node address parsed is the valid rendering of one record's contact, and every record with a usable port is there |
| Crawler.RecordCount | dht.js:25-31 | a trailing partial record makes `slice` give too few bytes, `compact2string` throw and the whole parse come back empty |
| Crawler.ParseNodeInfo | dht.js:22-32 | the loop over the 26-byte steps, then the filter, gives exactly the parsed node list |
| Crawler.GetPeersOf | dht.js:128-138 | `getPeers` reports false exactly when paused or with more than 100 requests in transit; reporting true leaves the queue, the pause and the visited set alone |
| Crawler.GetPeersSpec | dht.js:128-138 | `getPeers` keeps at most 101 requests in transit, sends only to an unvisited address that it then puts in transit, and queues only an unvisited address |
| Crawler.DrainStops | dht.js:119-122 | `resume()` unpauses, keeps the bound and the visited set, and stops with an empty queue or with the transit set full |
| Crawler.DrainSends | dht.js:121 | `resume()` sends only to queued addresses that were not visited |
| Crawler.DrainLifo | dht.js:121 | with room in transit, the next request after `resume()` goes to the most recently queued unvisited address |
| Crawler.DrainPrefix | dht.js:121 | draining only appends to the send log |
| Crawler.Elems | dht.js:56-57 | the addresses of a list, as a set |
| Crawler.ReportEach | dht.js:55-59 | `forEach(peer)` remembers every address and emits, in order, exactly the ones not seen before |
| Crawler.FreshSpec | dht.js:55-59 | the emitted addresses are new, pairwise different, and are exactly the unseen ones of the list |
| Crawler.DHT.constructor | dht.js:46-115 | a new crawler has no peers and has asked each bootstrap node, unless bootstrap is disabled |
| Crawler.DHT.GetPeers | dht.js:128-138 | the method does exactly what `GetPeersOf` says |
| Crawler.DHT.Resume | dht.js:119-122 | the loop does exactly what the `resume()` function says |
| Crawler.DHT.Pause | dht.js:124-126 | the crawler is paused afterwards |
| Crawler.DHT.VisitAll | dht.js:86 | `forEach(node)` calls `getPeers` on each node in order |
| Crawler.DHT.Report | dht.js:85 | each peer of the reply not reported before is emitted once and remembered |
| Crawler.DHT.OnMessage | dht.js:69-89 | the sender becomes visited; an undecodable message changes nothing else; a reply reports its new peers, asks its nodes, and resumes unless paused |
| Crawler.DHT.Heard | dht.js:70-73 | the sender is visited and no longer in transit |
| Crawler.DHT.Follow | dht.js:85-88 | a decoded reply reports its peers, visits its nodes and then resumes unless paused |
| Crawler.DHT.Sweep | dht.js:100-108 | requests older than two seconds leave the transit set, then the queue is resumed unless paused; every new transit entry was sent to |
| Crawler.Fresh2s | dht.js:103-105 | the transit entries kept are exactly those with `now - time <= 2000` |
| Crawler.ResumeNew | dht.js:119-122 | every address put in transit by `resume()` was sent to |
| Crawler.ReportValid | dht.js:55-59 | peers are emitted at most once and every emitted peer is remembered |

## Left out

- Real file and network I/O are not modelled: `fs`, random-access-file, mkdirp, rimraf, the lazy opening by thunky and the UDP socket. Files are byte sequences in maps, and every store call completes synchronously. The callback of a write is a separate step (`Written`) only where a shadow copy depends on it.
- SHA-1, bencode, `compact2string` and `ip.toLong` are not part of this model. They are function-typed constants, or their results arrive as already decoded parameters: a decoded message header, a list of addresses, an address as a number.
- Timers and clocks (`setInterval`, `setTimeout` and `Date.now()`) are not modelled; the current time is a `now` parameter. The 10-second rechoke interval, the one-second DHT sweep and the choke timeouts of wires are therefore absent.
- `Math.random` is an input. Rechoke takes one salt per wire and an index for the optimistic pick (read modulo the number of candidates).
- Speeds are natural numbers of bytes per second, not the floating-point rates that `downloadSpeed()` measures. The time division `MAX_REQUESTS * BLOCK_SIZE / speed` of the speed ranker is scaled away by multiplying every quantity by the speed.
- Selection.SortDesc: the sort is modelled as stable. The JavaScript `Array.prototype.sort` of the time promised no particular order for ranges of equal priority.
- Blocklist.BlockSet.Add: the tree is a value, and `add`, the rotations and `update` rebuild it. The source mutates node objects in place, so node aliasing is not captured.
- Selection.ToNumber: it covers the values that reach it (booleans, `undefined` and numbers). Other JavaScript values (strings, objects) are not modelled.
- Blocklist.ToLong: it converts address strings through a number supplied with them. Malformed strings, which `ip.toLong` turns into garbage numbers rather than errors, are not modelled.
- PeerBlock.IsPeerBlocked: addresses are the numbers `ip.toLong` gives. IPv6 addresses are not supported by the source either.
- Scheduler.Engine.VerifyAll: the asynchronous store reads of the verification loop are taken as one sequence `stored` of results, as if every read had finished.
- The `verifying` and `ready` emits, and the wiring of the swarm inside `onready`, are not modelled: they only forward to the swarm.
- StorageBuffer.ShadowStore.Close: the wrapped store always offers `close` and `remove`. The case where `lib/storage-buffer.js` leaves them undefined is not modelled.
- The store's error callbacks for I/O failures are not modelled, because files in memory do not fail. A file that does not exist is modelled, and gives the empty read of lib/storage.js:115.
- The end-to-end fixture checks of test/storage.js that compare text (`'Lorem ipsum'`, `'Vestibulum'`) are not modelled, because the fixture's bytes are not part of this model. Its lengths and offsets are modelled in `Storage.TestPieceTail` and `ReadStream.TestStreamFromOffset`.
- Several files are not part of this model because they only wire libraries together: lib/peer-discovery.js, lib/tracker.js, lib/utils.js, index.js and example.js. The same goes for the setup paths of lib/TorrentStream.js: swarm, DHT and tracker setup, and reading the cache file.
- Scheduler.Engine.Connect: the rest of a wire's life is not modelled. That covers closing, the request and choke timeouts, and the `request` listener that serves uploads from the store. The peer-driven fields of a wire (its pieces, choke state, speeds and `downloaded`) are set by the transport, and the engine reads them as they stand.
- The Node.js stream and EventEmitter machinery is not modelled. `push` and `emit` are appends to logs.
- DHT `destroy` (clearing the interval and closing the socket) and the rechoker's `start`/`stop` are not modelled: they only manage timers and sockets.
- ReadStream.FileStream.Notify: the fetch of the current piece (`engine.store.get` at lib/file-stream.js:71) is returned as a `Get(piece)` request, and its result is handed back through `OnFetched`; the store itself is not called from the stream.
- Crawler.ValidHostPort: the port field is read only as a plain decimal digit run. `Number` also accepts hexadecimal, exponents and surrounding whitespace; those spellings count as invalid here.
- Metadata.Exchange.OnMessage: after a hash match, lib/TorrentStream.js writes a torrent file and re-parses it, which is not modelled. Its success is modelled as the metadata being delivered once.

## Findings

| source | as written | input that shows it | evidently intended | confidence | as-written member | corrected member |
|---|---|---|---|---|---|---|
| engine.js:244 | `missing -= otherSpeed * secs > 0` parses as `missing -= (otherSpeed * secs > 0)`. Each fast peer therefore takes one byte off the missing count, and a piece is refused only when that count lands on 0. The same line is at lib/TorrentStream.js:428. | A wire of unknown speed; one other wire at 48 KiB/s that has the piece; one block (16384 bytes) missing. This wire is admitted, although the other peer delivers the block long before it would. | Subtract the bytes the faster peer delivers, `(missing -= otherSpeed * secs) > 0`, as lib/torrent-client.js:227 does. The piece is then refused exactly when the faster peers together cover the missing bytes (`SpeedRank.ScanTCRefusesIffCovered`). | high (not executed) | SpeedRank.ScanEngine | SpeedRank.ScanTC |
| lib/TorrentStream.js:469 | `t.pieces[index] = t.piece(p.length)` calls a method that `TorrentStream` does not define, so a piece that fails its check throws a TypeError. The spent buffer is left in place. | Any piece whose assembled bytes fail the SHA-1 check. | Replace the piece with a fresh buffer of the same length, emit `invalid-piece` and reschedule, as lib/torrent-client.js:169-171 and engine.js:201-203 do. | medium (not executed) | Scheduler.Engine.Reject | Scheduler.Engine.Renew |

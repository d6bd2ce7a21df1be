/**
 * What the three generations of the scheduler have in common: which
 * generation is meant, and the events the engine emits (an appended log
 * stands for `emit` and for callbacks such as a range's `notify`).
 */
module EngineEvents {
  import opened Bytes
  import opened Peer

  /**
   * The three successive implementations of the scheduler:
   * lib/torrent-client.js, engine.js and lib/TorrentStream.js.
   */
  datatype Version = TorrentClient | EngineJs | TorrentStream

  datatype Event =
    | Notify(id: nat)                 // a selection range's `notify` callback
    | EmitInterested
    | EmitUninterested
    | Broadcast(msg: Msg)             // the same message sent to every wire by a `forEach`
    | Idle
    | Verify(index: nat)
    | Download(index: nat, data: Bytes)
    | InvalidPiece(index: nat, data: Bytes)
    | Hotswap(victim: Address, thief: Address, index: nat)
    | BlockPeer(address: Address)
    | PieceIsNotAFunction(index: nat)   // the TypeError thrown by `t.piece(...)`

  /**
   * The events of one interest recomputation: every wire is told, and the
   * engine-level event fires only on a flip (engine.js keeps no flag and never emits).
   */
  function InterestEvents(version: Version, prev: bool, now: bool): (r: seq<Event>)
    ensures |r| >= 1 && r[0] == Broadcast(if now then Interested else Uninterested)
    ensures |r| == 2 <==> version != EngineJs && prev != now
    ensures |r| <= 2
    ensures |r| == 2 ==> r[1] == (if now then EmitInterested else EmitUninterested)
  {
    [Broadcast(if now then Interested else Uninterested)]
    + (if version != EngineJs && prev != now then [if now then EmitInterested else EmitUninterested] else [])
  }

  /** The `amInterested` flag after a recomputation. */
  function NextInterest(version: Version, prev: bool, now: bool): bool
  {
    if version == EngineJs then prev else now
  }

  /** Interest recomputation never emits twice in a row: a second one with the same answer emits nothing. */
  lemma InterestNoRedundantEmit(version: Version, prev: bool, now: bool)
    ensures InterestEvents(version, NextInterest(version, prev, now), now) == [Broadcast(if now then Interested else Uninterested)]
  {
  }
}

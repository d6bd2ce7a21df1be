/**
 * The peer handle ("wire") that the scheduler and the rechoke policy talk
 * to. Only the state they read or change is kept: the pieces the peer
 * advertises, the outstanding block requests, the observed speeds, the
 * choke/interest flags, the bad-piece strike window and a log of what was
 * sent to the peer.
 */
module Peer {
  import opened Bytes
  import opened Piece

  /** A network address, already decoded (`ip.toLong` and the port). */
  type Address = nat

  datatype Msg =
    | Interested
    | Uninterested
    | Have(index: nat)
    | RequestBlock(piece: nat, offset: nat, length: nat)
    | Choke
    | Unchoke
    | Bitfield(pieces: set<nat>)

  /**
   * One outstanding block request. The request callback of the source is a
   * closure over the piece buffer `buf`, the reservation-list slot `slot`
   * and the block index `reservation`; they are kept here.
   */
  datatype Request = Request(piece: nat, offset: nat, length: nat, buf: PieceBuffer<Wire?>, slot: nat, reservation: nat)

  /**
   * Where the seeder scan stops when it starts at `from`: the first index
   * the peer lacks, or the start itself once it is at or past `count`.
   */
  function ScanEnd(pieces: set<int>, from: nat, count: nat): nat
    decreases count - from
  {
    if from >= count || from !in pieces then from else ScanEnd(pieces, from + 1, count)
  }

  /**
   * The scan passes only pieces the peer has, and stops before `count`
   * only at a piece it lacks.
   */
  lemma {:induction false} ScanEndSpec(pieces: set<int>, from: nat, count: nat)
    ensures from <= ScanEnd(pieces, from, count)
    ensures ScanEnd(pieces, from, count) == from || ScanEnd(pieces, from, count) <= count
    ensures forall k :: from <= k < ScanEnd(pieces, from, count) ==> k in pieces
    ensures ScanEnd(pieces, from, count) < count ==> ScanEnd(pieces, from, count) !in pieces
    decreases count - from
  {
    if !(from >= count || from !in pieces) {
      ScanEndSpec(pieces, from + 1, count);
    }
  }

  /** A scan from the first piece reaches `count` exactly when the peer has every piece. */
  lemma SeederIffComplete(pieces: set<int>, count: nat)
    ensures ScanEnd(pieces, 0, count) >= count <==> forall k :: 0 <= k < count ==> k in pieces
  {
    ScanEndSpec(pieces, 0, count);
  }

  class Wire {
    const address: Address
    var peerPieces: set<int>
    var peerPiecesLength: nat
    var requests: seq<Request>
    var downSpeed: nat
    var upSpeed: nat
    var peerChoking: bool
    var amChoking: bool
    var peerInterested: bool
    var amInterested: bool
    var downloaded: nat
    var isSeeder: bool
    var seederScan: nat
    var badPieceStrikes: seq<int>
    var sent: seq<Msg>

    /** A new connection: choked both ways, not interested, nothing sent. */
    constructor (address: Address)
      ensures this.address == address && peerPieces == {} && requests == [] && sent == []
      ensures peerChoking && amChoking && !peerInterested && !amInterested
      ensures downSpeed == 0 && upSpeed == 0 && downloaded == 0
      ensures !isSeeder && seederScan == 0 && badPieceStrikes == []
    {
      this.address := address;
      peerPieces := {};
      peerPiecesLength := 0;
      requests := [];
      downSpeed := 0;
      upSpeed := 0;
      peerChoking := true;
      amChoking := true;
      peerInterested := false;
      amInterested := false;
      downloaded := 0;
      isSeeder := false;
      seederScan := 0;
      badPieceStrikes := [];
      sent := [];
    }

    /** `wire.request(piece, offset, length, cb)`: the request becomes outstanding and is sent. */
    method SendRequest(q: Request)
      modifies this`requests, this`sent
      ensures requests == old(requests) + [q]
      ensures sent == old(sent) + [RequestBlock(q.piece, q.offset, q.length)]
    {
      requests := requests + [q];
      sent := sent + [RequestBlock(q.piece, q.offset, q.length)];
    }

    /** `wire.interested()`. */
    method SendInterested()
      modifies this`amInterested, this`sent
      ensures amInterested && sent == old(sent) + [Interested]
    {
      amInterested := true;
      sent := sent + [Interested];
    }

    /** `wire.bitfield(bits)`: advertise the pieces we have. */
    method SendBitfield(bits: set<nat>)
      modifies this`sent
      ensures sent == old(sent) + [Bitfield(bits)]
    {
      sent := sent + [Bitfield(bits)];
    }

    /** `wire.choke()`. */
    method SendChoke()
      modifies this`amChoking, this`sent
      ensures amChoking && sent == old(sent) + [Choke]
    {
      amChoking := true;
      sent := sent + [Choke];
    }

    /** `wire.unchoke()`. */
    method SendUnchoke()
      modifies this`amChoking, this`sent
      ensures !amChoking && sent == old(sent) + [Unchoke]
    {
      amChoking := false;
      sent := sent + [Unchoke];
    }

    /**
     * `checkseeder`, run on every `bitfield` and `have` message
     * (lib/torrent-client.js): once the peer's bitfield has one bit per
     * piece, the cursor kept between calls moves over the pieces the peer
     * has, and a scan that reaches `count` marks the wire as a seeder.
     */
    method CheckSeeder(count: nat)
      modifies this`seederScan, this`isSeeder
      ensures peerPiecesLength != count ==> seederScan == old(seederScan) && isSeeder == old(isSeeder)
      ensures peerPiecesLength == count ==>
                seederScan == ScanEnd(peerPieces, old(seederScan), count)
                && isSeeder == (old(isSeeder) || seederScan >= count)
    {
      if peerPiecesLength != count {
        return;
      }
      while seederScan < count
        invariant ScanEnd(peerPieces, seederScan, count) == ScanEnd(peerPieces, old(seederScan), count)
        invariant isSeeder == old(isSeeder)
        decreases count - seederScan
      {
        if seederScan !in peerPieces {
          return;
        }
        seederScan := seederScan + 1;
      }
      isSeeder := true;
    }
  }
}

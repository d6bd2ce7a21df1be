/**
 * Fetching the info dictionary from peers with the `ut_metadata` extension
 * (BEP 9, "extension message" section), as `lib/exchange-metadata.js` and
 * the same handler inside `lib/TorrentStream.js` (lines 156-218) do it.
 *
 * The metadata travels in pieces of 16 KiB. A message is a bencoded header
 * (`msg_type` 0 request, 1 data, 2 reject, and `piece`) followed, for data,
 * by the piece's bytes. Pieces received from any peer go into one shared
 * array; once every piece below `metadata_size` is there, the array is
 * joined and checked against the info hash: a match makes it the torrent's
 * metadata, a mismatch throws every piece away.
 *
 * Bencode decoding is a parameter (the decoded header, or `None` when the
 * decoder throws); SHA-1 is the function-typed constant `sha1`.
 */
module Metadata {
  import opened Wrappers
  import opened Bytes

  /** `METADATA_BLOCK_SIZE`, 16 KiB. */
  const BlockSize := 16384

  /** `METADATA_MAX_SIZE`, 4 MiB: larger announced sizes are never requested. */
  const MaxSize := 4194304

  /** The extension id this client announces for `ut_metadata`. */
  const LocalId := 1

  /** An info hash or a SHA-1 result, as a hex string. */
  type Digest = seq<char>

  /** Which of the two copies of the handler is modelled; they differ in small ways. */
  datatype Version = ExchangeMetadata | TorrentStream

  /** The decoded extended handshake: `m.ut_metadata` and `metadata_size`, each possibly absent. */
  datatype Handshake = Handshake(utMetadata: Option<int>, metadataSize: Option<int>)

  /** The decoded header of an extension message: `msg_type` and `piece` (possibly absent). */
  datatype Message = Message(msgType: int, piece: Option<int>)

  /** What a wire's handler remembers from the peer's handshake. */
  datatype Link = Link(channel: int, size: Option<int>)

  /** The messages sent to peers over `wire.extended`. */
  datatype Out =
    | Greeting(size: Option<nat>)
    | Request(channel: int, index: nat)
    | Reject(channel: int, piece: Option<int>)
    | Data(channel: int, piece: Option<int>, data: Bytes)

  /** What one extension message did. */
  datatype Outcome = Ignored | Answered | Waiting | Thrown | Mismatch | Assembled

  // ------------------------------------------------------- the message header

  /**
   * `ext.toString('ascii')` reads each byte with its high bit cleared, so
   * the letter `e` (101) is any byte equal to 101 modulo 128.
   */
  predicate IsE(b: byte)
  {
    b % 128 == 101
  }

  /** The ASCII text of `ext` has `ee` at position `j`. */
  predicate Pair(ext: Bytes, j: int)
  {
    0 <= j && j + 1 < |ext| && IsE(ext[j]) && IsE(ext[j + 1])
  }

  /** `indexOf('ee', from)`: the first pair at or after `from`, or -1. */
  function FindPair(ext: Bytes, from: nat): (r: int)
    ensures r == -1 || (from <= r && Pair(ext, r))
    ensures forall j :: from <= j && (r == -1 || j < r) ==> !Pair(ext, j)
    decreases |ext| - from
  {
    if from + 1 >= |ext| then -1
    else if IsE(ext[from]) && IsE(ext[from + 1]) then from
    else FindPair(ext, from + 1)
  }

  /** `delimiter`: where the first `ee` starts, or -1. */
  function Delimiter(ext: Bytes): int
  {
    FindPair(ext, 0)
  }

  /** The bytes handed to the bencode decoder: up to and including the first `ee`, or all of `ext`. */
  function Header(ext: Bytes): (r: Bytes)
    ensures |r| <= |ext|
  {
    var d := Delimiter(ext);
    ext[..if d == -1 then |ext| else d + 2]
  }

  /** `ext.slice(delimiter + 2)`: the piece's bytes (from index 1 when there is no `ee`). */
  function Payload(ext: Bytes): Bytes
  {
    Slice(ext, Delimiter(ext) + 2, |ext|)
  }

  /**
   * A header whose only `ee` is its last two bytes (the end of a bencoded
   * dictionary with integer values) comes apart again from any payload.
   */
  lemma SplitRoundTrip(header: Bytes, data: Bytes)
    requires |header| >= 2 && Pair(header, |header| - 2)
    requires forall j :: 0 <= j < |header| - 2 ==> !Pair(header, j)
    ensures Header(header + data) == header && Payload(header + data) == data
  {
    var ext := header + data;
    assert forall j :: 0 <= j < |header| - 2 ==> !Pair(ext, j) by {
      forall j | 0 <= j < |header| - 2
        ensures !Pair(ext, j)
      {
        assert !Pair(header, j);
        assert ext[j] == header[j] && ext[j + 1] == header[j + 1];
      }
    }
    assert Pair(ext, |header| - 2) by {
      assert ext[|header| - 2] == header[|header| - 2] && ext[|header| - 1] == header[|header| - 1];
    }
    assert Delimiter(ext) == |header| - 2;
    assert ext[|header|..] == data;
  }

  /** Without an `ee`, the header is the whole message and the payload drops the first byte. */
  lemma NoDelimiter(ext: Bytes)
    requires forall j :: 0 <= j < |ext| - 1 ==> !Pair(ext, j)
    ensures Header(ext) == ext
    ensures Payload(ext) == if ext == [] then [] else ext[1..]
  {
  }

  // ------------------------------------------------------- the piece array

  /** How many pieces a size announces: the `i` with `i * 16384 < size`. */
  function Count(size: Option<int>): (n: nat)
  {
    if size.None? || size.value <= 0 then 0 else (size.value + BlockSize - 1) / BlockSize
  }

  /** `Count` is the number of iterations of `for (i = 0; i * 16384 < size; i++)`. */
  lemma CountBound(size: Option<int>, i: nat)
    ensures i < Count(size) <==> size.Some? && i * BlockSize < size.value
  {
    if size.Some? && size.value > 0 {
      var s := size.value;
      var n := (s + BlockSize - 1) / BlockSize;
      assert (n - 1) * BlockSize < s <= n * BlockSize;
      if i < n {
        assert i * BlockSize <= (n - 1) * BlockSize;
      } else {
        assert i * BlockSize >= n * BlockSize;
      }
    }
  }

  /** `metadataPieces[i]` is a buffer (buffers are truthy, even empty ones). */
  predicate Present(pieces: seq<Option<Bytes>>, i: nat)
  {
    i < |pieces| && pieces[i].Some?
  }

  /** `metadataPieces[i] = data` on a JavaScript array: it grows with holes up to `i`. */
  function Store(pieces: seq<Option<Bytes>>, i: nat, data: Bytes): (r: seq<Option<Bytes>>)
    ensures |r| == if i < |pieces| then |pieces| else i + 1
    ensures r[i] == Some(data)
    ensures forall k :: 0 <= k < |r| && k != i ==> (if k < |pieces| then r[k] == pieces[k] else r[k].None?)
  {
    if i < |pieces| then pieces[i := Some(data)]
    else pieces + seq(i - |pieces|, _ => None) + [Some(data)]
  }

  /** The buffers of a hole-free array, in order. */
  function Buffers(pieces: seq<Option<Bytes>>): seq<Bytes>
    requires forall k :: 0 <= k < |pieces| ==> pieces[k].Some?
  {
    seq(|pieces|, k requires 0 <= k < |pieces| => pieces[k].value)
  }

  /**
   * `Buffer.concat(metadataPieces)`: the pieces joined in index order; a
   * hole (a piece sent past the announced count) makes it throw.
   */
  function Join(pieces: seq<Option<Bytes>>): (r: Option<Bytes>)
    ensures r.Some? <==> forall k :: 0 <= k < |pieces| ==> pieces[k].Some?
    ensures r.Some? ==> r.value == Concat(Buffers(pieces))
  {
    if forall k :: 0 <= k < |pieces| ==> pieces[k].Some? then Some(Concat(Buffers(pieces))) else None
  }

  /** The pieces below `n` that are still missing, in ascending order. */
  function Missing(pieces: seq<Option<Bytes>>, n: nat): seq<nat>
  {
    if n == 0 then [] else Missing(pieces, n - 1) + (if Present(pieces, n - 1) then [] else [n - 1])
  }

  /** `Missing` lists exactly the absent pieces below `n`, each once, in ascending order. */
  lemma {:induction false} MissingSpec(pieces: seq<Option<Bytes>>, n: nat)
    ensures forall k :: 0 <= k < |Missing(pieces, n)| ==> Missing(pieces, n)[k] < n && !Present(pieces, Missing(pieces, n)[k])
    ensures forall i :: 0 <= i < n && !Present(pieces, i) ==> i in Missing(pieces, n)
    ensures forall k, m :: 0 <= k < m < |Missing(pieces, n)| ==> Missing(pieces, n)[k] < Missing(pieces, n)[m]
  {
    if n > 0 {
      MissingSpec(pieces, n - 1);
    }
  }

  /** Requests on `channel` for the given pieces, in order. */
  function Requests(channel: int, wanted: seq<nat>): (r: seq<Out>)
    ensures |r| == |wanted|
    ensures forall k :: 0 <= k < |r| ==> r[k] == Request(channel, wanted[k])
  {
    if wanted == [] then [] else Requests(channel, wanted[..|wanted| - 1]) + [Request(channel, wanted[|wanted| - 1])]
  }

  /** An extension message whose `piece` makes the handler return at once. */
  predicate BadPiece(version: Version, piece: Option<int>)
  {
    match piece
    // `piece < 0` is false for `undefined`; `!(piece >= 0)` is true.
    case None => version == TorrentStream
    case Some(p) => p < 0
  }

  /** The metadata exchange of one torrent: the shared piece array, the metadata once known, and what was sent. */
  class Exchange {
    const version: Version
    const infoHash: Digest
    const sha1: Bytes -> Digest
    /** `metadataPieces` (`t._metadataPieces`), shared by every wire. */
    var pieces: seq<Option<Bytes>>
    /** `engine.metadata` (`t._metadata`). */
    var metadata: Option<Bytes>
    /** Every `wire.extended(...)` call, in order. */
    var sent: seq<Out>
    /** Each metadata handed to `callback` (or written out as the torrent file). */
    var delivered: seq<Bytes>

    /** The hash of a delivered metadata always matches. */
    ghost predicate Valid()
      reads this
    {
      (metadata.Some? ==> sha1(metadata.value) == infoHash)
      && (forall k :: 0 <= k < |delivered| ==> sha1(delivered[k]) == infoHash)
      && |delivered| <= 1 && (metadata.None? <==> delivered == [])
      && (metadata.Some? ==> delivered == [metadata.value])
    }

    constructor (version: Version, infoHash: Digest, sha1: Bytes -> Digest)
      ensures Valid() && this.version == version && this.infoHash == infoHash && this.sha1 == sha1
      ensures pieces == [] && metadata == None && sent == [] && delivered == []
    {
      this.version := version;
      this.infoHash := infoHash;
      this.sha1 := sha1;
      pieces := [];
      metadata := None;
      sent := [];
      delivered := [];
    }

    /** On a new wire that speaks the extension protocol: announce `ut_metadata`, with the size once known. */
    method Greet(extended: bool)
      modifies this`sent
      ensures sent == old(sent) + (if !extended then [] else [Greeting(if metadata.Some? then Some(|metadata.value|) else None)])
    {
      if extended {
        sent := sent + [Greeting(if metadata.Some? then Some(|metadata.value|) else None)];
      }
    }

    /**
     * The peer's extended handshake (message id 0): a peer that offers
     * `ut_metadata` gets a message handler (the returned link), and,
     * when it announces a size of at most 4 MiB and the metadata is not
     * known, a request for every missing piece. `known` is the metadata as
     * it was when the wire connected, which `lib/exchange-metadata.js`
     * consults here in place of the current one. A handshake that does not
     * decode is dropped by `lib/exchange-metadata.js`, whose decode sits in
     * a `try`; lib/TorrentStream.js decodes it outside any `try`, so the
     * error escapes the listener (`thrown`).
     */
    method OnHandshake(id: int, hs: Option<Handshake>, known: Option<Bytes>) returns (link: Option<Link>, thrown: bool)
      modifies this`sent
      ensures thrown <==> version == TorrentStream && hs.None?
      ensures link.None? <==> id != 0 || hs.None? || hs.value.utMetadata.None?
      ensures link.Some? ==> link.value == Link(hs.value.utMetadata.value, hs.value.metadataSize)
      ensures link.Some? && Asks(link.value.size, known) ==>
        sent == old(sent) + Requests(link.value.channel, Missing(pieces, Count(link.value.size)))
      ensures link.None? || !Asks(link.value.size, known) ==> sent == old(sent)
    {
      thrown := version == TorrentStream && hs.None?;
      if id != 0 || hs.None? || hs.value.utMetadata.None? {
        return None, thrown;
      }
      link := Some(Link(hs.value.utMetadata.value, hs.value.metadataSize));
      var size := hs.value.metadataSize;
      if size.Some? && size.value > MaxSize {
        return;
      }
      var current := if version == ExchangeMetadata then known else metadata;
      if size.None? || size.value == 0 || current.Some? {
        return;
      }
      RequestMissing(link.value.channel, Count(size));
    }

    /** Whether the handshake leads to requests: a size in `(0, 4 MiB]`, or negative, and no metadata. */
    predicate Asks(size: Option<int>, known: Option<Bytes>)
      reads this
    {
      size.Some? && size.value != 0 && size.value <= MaxSize
      && (if version == ExchangeMetadata then known else metadata).None?
    }

    /** `for (i = 0; i * 16384 < size; i++) if (!metadataPieces[i]) request(i)`. */
    method RequestMissing(channel: int, n: nat)
      modifies this`sent
      ensures sent == old(sent) + Requests(channel, Missing(pieces, n))
    {
      var i := 0;
      while i < n
        invariant i <= n
        invariant sent == old(sent) + Requests(channel, Missing(pieces, i))
      {
        if !(i < |pieces| && pieces[i].Some?) {
          sent := sent + [Request(channel, i)];
        }
        i := i + 1;
      }
    }

    /** `for (i = 0; i * 16384 < size; i++) if (!metadataPieces[i]) return;`: are all pieces below `n` in? */
    method AllIn(n: nat) returns (all: bool)
      ensures all <==> forall i :: 0 <= i < n ==> Present(pieces, i)
    {
      var i := 0;
      while i < n
        invariant i <= n
        invariant forall k :: 0 <= k < i ==> Present(pieces, k)
      {
        if !(i < |pieces| && pieces[i].Some?) {
          assert !Present(pieces, i);
          return false;
        }
        i := i + 1;
      }
      return true;
    }

    /**
     * An extension message on a wire with handler `link`: `header` is what
     * bencode makes of `Header(ext)` (`None` when it throws). Requests are
     * answered from the metadata or rejected; data is stored and, once all
     * announced pieces are in, joined and checked against the info hash.
     */
    method OnMessage(link: Link, id: int, ext: Bytes, header: Option<Message>) returns (r: Outcome)
      requires Valid()
      modifies this`pieces, this`metadata, this`sent, this`delivered
      ensures Valid()
      ensures r == Ignored ==> pieces == old(pieces) && metadata == old(metadata) && sent == old(sent) && delivered == old(delivered)
      ensures id != LocalId || header.None? || BadPiece(version, header.value.piece) || header.value.msgType == 2 ==> r == Ignored
      ensures r == Answered <==> id == LocalId && header.Some? && !BadPiece(version, header.value.piece) && header.value.msgType == 0
      ensures r == Answered ==> pieces == old(pieces) && metadata == old(metadata) && delivered == old(delivered)
      ensures r == Answered ==> sent == old(sent) + [Answer(link.channel, header.value.piece, old(metadata))]
      ensures old(metadata).Some? ==> metadata == old(metadata) && delivered == old(delivered)
      ensures r in {Waiting, Thrown, Mismatch, Assembled} ==>
        id == LocalId && header.Some? && header.value.msgType == 1 && old(metadata).None? && sent == old(sent)
      ensures r in {Waiting, Thrown, Mismatch, Assembled} ==>
        var stored := Stored(old(pieces), header.value.piece, Payload(ext));
        (r == Waiting <==> exists i :: 0 <= i < Count(link.size) && !Present(stored, i))
        && (r == Thrown <==> (forall i :: 0 <= i < Count(link.size) ==> Present(stored, i)) && Join(stored).None?)
        && (r == Mismatch <==> Join(stored).Some? && (forall i :: 0 <= i < Count(link.size) ==> Present(stored, i))
                                 && sha1(Join(stored).value) != infoHash)
        && (r == Mismatch ==> pieces == [] && metadata.None?)
        && (r != Mismatch ==> pieces == stored)
        && (r == Assembled ==> metadata == Join(stored) && delivered == [metadata.value])
        && (r != Assembled ==> metadata.None? && delivered == [])
    {
      if id != LocalId || header.None? || BadPiece(version, header.value.piece) {
        return Ignored;
      }
      var piece := header.value.piece;
      if header.value.msgType == 2 {
        return Ignored;
      }
      if header.value.msgType == 0 {
        sent := sent + [Answer(link.channel, piece, metadata)];
        return Answered;
      }
      if header.value.msgType != 1 || metadata.Some? {
        return Ignored;
      }
      pieces := Stored(pieces, piece, Payload(ext));
      var all := AllIn(Count(link.size));
      if !all {
        return Waiting;
      }
      var joined := Join(pieces);
      if joined.None? {
        return Thrown;
      }
      if sha1(joined.value) != infoHash {
        pieces := [];
        return Mismatch;
      }
      metadata := joined;
      delivered := delivered + [joined.value];
      r := Assembled;
    }
  }

  /** The array after a data message: stored at `piece`, or untouched for a missing `piece` (a non-index property). */
  function Stored(pieces: seq<Option<Bytes>>, piece: Option<int>, data: Bytes): (r: seq<Option<Bytes>>)
    requires piece.Some? ==> piece.value >= 0
    ensures piece.None? ==> r == pieces
    ensures |r| >= |pieces|
    ensures piece.Some? ==> Present(r, piece.value) && r[piece.value] == Some(data)
    ensures forall i :: 0 <= i < |pieces| && (piece.None? || i != piece.value) ==> r[i] == pieces[i]
  {
    if piece.None? then pieces else Store(pieces, piece.value, data)
  }

  /**
   * The answer to a request: a reject when the metadata is unknown,
   * otherwise `metadata.slice(piece * 16384, piece * 16384 + 16384)`
   * (empty for a missing `piece`, whose offset is `NaN`).
   */
  function Answer(channel: int, piece: Option<int>, metadata: Option<Bytes>): (r: Out)
    ensures metadata.None? <==> r == Reject(channel, piece)
    ensures metadata.Some? && piece.Some? && 0 <= piece.value ==>
      r == Data(channel, piece, Slice(metadata.value, piece.value * BlockSize, piece.value * BlockSize + BlockSize))
  {
    if metadata.None? then Reject(channel, piece)
    else if piece.None? then Data(channel, piece, [])
    else
      var offset := piece.value * BlockSize;
      Data(channel, piece, Slice(metadata.value, offset, offset + BlockSize))
  }

  /** A request for a piece inside the metadata gets exactly that 16 KiB (or the shorter last piece). */
  lemma AnswerPiece(channel: int, i: nat, m: Bytes)
    requires i * BlockSize < |m|
    ensures Answer(channel, Some(i), Some(m)).Data?
    ensures Answer(channel, Some(i), Some(m)).data == m[i * BlockSize..if (i + 1) * BlockSize <= |m| then (i + 1) * BlockSize else |m|]
  {
  }

  /** Answers to every piece below the count, joined, give back the metadata. */
  lemma {:induction false} AnswersJoin(m: Bytes, n: nat)
    requires n <= Count(Some(|m|))
    ensures Concat(seq(n, i requires 0 <= i < n => Answer(0, Some(i), Some(m)).data)) == m[..if n * BlockSize <= |m| then n * BlockSize else |m|]
  {
    if n > 0 {
      CountBound(Some(|m|), n - 1);
      var parts := seq(n, i requires 0 <= i < n => Answer(0, Some(i), Some(m)).data);
      var prefix := seq(n - 1, i requires 0 <= i < n - 1 => Answer(0, Some(i), Some(m)).data);
      assert parts[..n - 1] == prefix;
      AnswersJoin(m, n - 1);
      AnswerPiece(0, n - 1, m);
      assert (n - 1) * BlockSize <= |m|;
    }
  }
}

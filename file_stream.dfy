/**
 * The readable stream over one file of the torrent (`lib/file-stream.js`):
 * the byte range becomes a piece range, and each verified piece fetched from
 * the store is trimmed to the range and pushed, until the range is used up.
 */
module ReadStream {
  import opened Wrappers
  import opened Bytes
  import Storage

  // -------------------------------------------------------- the arithmetic

  /** JavaScript's `x | 0` on an integer value: the low 32 bits, read as a signed number. */
  function Int32(x: int): (r: int)
    ensures -0x8000_0000 <= r < 0x8000_0000
    ensures -0x8000_0000 <= x < 0x8000_0000 ==> r == x
  {
    (x + 0x8000_0000) % 0x1_0000_0000 - 0x8000_0000
  }

  /** `x / pl | 0`: the quotient truncated toward zero, then wrapped to 32 bits. */
  function PieceOf(x: int, pl: nat): (r: int)
    requires pl > 0
    ensures 0 <= x < 0x8000_0000 * pl ==> r == x / pl
    ensures x < 0 && x + pl > 0 ==> r == 0
  {
    QuotientFits(x, pl);
    SmallQuotient(-x, pl);
    Int32(TruncDiv(x, pl))
  }

  /** Division truncating toward zero, as JavaScript's float quotient followed by `| 0`. */
  function TruncDiv(x: int, pl: nat): int
    requires pl > 0
  {
    if x >= 0 then x / pl else -((-x) / pl)
  }

  lemma QuotientFits(x: int, pl: nat)
    requires pl > 0
    ensures 0 <= x < 0x8000_0000 * pl ==> x / pl < 0x8000_0000
  {
    var q := x / pl;
    assert x == q * pl + x % pl;
    if 0 <= x && q >= 0x8000_0000 {
      assert q * pl >= 0x8000_0000 * pl;
    }
  }

  lemma SmallQuotient(y: int, pl: nat)
    requires pl > 0
    ensures 0 <= y < pl ==> y / pl == 0
  {
    var q := y / pl;
    assert y == q * pl + y % pl;
  }

  /** `opts.end`: a number given as the end is kept, even 0; anything else becomes the file's last byte. */
  function EndOf(end: Option<int>, fileLength: nat): int
  {
    if end.Some? then end.value else fileLength - 1
  }

  /** `_critical`: `Math.min(1024 * 1024 / pieceLength, 2) | 0`, the number of pieces to mark critical. */
  function CriticalCount(pl: nat): (r: nat)
    requires pl > 0
    ensures r <= 2
    ensures r == 2 <==> pl <= 524288
    ensures r == 0 <==> pl > 1048576
  {
    if 1048576 / pl >= 2 then 2 else 1048576 / pl
  }

  /** The start byte's place within the first piece, when the piece number does not wrap. */
  lemma FirstOffset(offset: nat, pl: nat)
    requires pl > 0 && offset < 0x8000_0000 * pl
    ensures var p := PieceOf(offset, pl);
            p >= 0 && 0 <= offset - Storage.PieceStart(p, pl) < pl
  {
    var p := offset / pl;
    Storage.PieceStartIsProduct(p, pl);
    assert offset == p * pl + offset % pl;
  }

  // ------------------------------------------------------ trimming a piece

  /** What the store's `get` gives for the piece starting at byte `ps`: its bytes, the last piece cut short. */
  function PieceBytes(torrent: Bytes, ps: int, pl: nat): Bytes
  {
    var lo := if ps < 0 then 0 else if ps < |torrent| then ps else |torrent|;
    var hi := if ps + pl < lo then lo else if ps + pl < |torrent| then ps + pl else |torrent|;
    torrent[lo..hi]
  }

  /**
   * The callback's trimming: the first `skip` bytes go (`buffer.slice(_offset)`),
   * then the rest is cut to `missing` (`buffer.slice(0, _missing)`).
   */
  function Trim(buffer: Bytes, skip: int, missing: int): (chunk: Bytes)
    ensures 0 <= skip <= |buffer| && 0 <= missing ==>
              |chunk| == (if missing < |buffer| - skip then missing else |buffer| - skip)
              && chunk == buffer[skip..skip + |chunk|]
  {
    var rest := if skip != 0 then Slice(buffer, skip, |buffer|) else buffer;
    if missing < |rest| then Slice(rest, 0, missing) else rest
  }

  /**
   * Trimming piece bytes at the reading position gives the torrent's next
   * bytes; if they do not finish the range, they run to the end of the piece.
   */
  lemma TrimPiece(torrent: Bytes, ps: nat, pl: nat, skip: nat, missing: nat)
    requires skip < pl && ps + skip + missing <= |torrent|
    ensures var chunk := Trim(PieceBytes(torrent, ps, pl), skip, missing);
            && chunk == torrent[ps + skip..ps + skip + |chunk|]
            && |chunk| <= missing
            && (|chunk| < missing ==> ps + skip + |chunk| == ps + pl)
  {
    var buffer := PieceBytes(torrent, ps, pl);
    var pos := ps + skip;
    if missing > 0 {
      assert ps <= |torrent|;
      assert |buffer| == (if ps + pl < |torrent| then pl else |torrent| - ps);
      assert buffer == torrent[ps..ps + |buffer|];
      var chunk := Trim(buffer, skip, missing);
      assert chunk == buffer[skip..skip + |chunk|] && skip + |chunk| <= |buffer|;
      SubSlice(torrent, ps, ps + |buffer|, skip, skip + |chunk|);
    } else {
      if skip <= |buffer| {
      } else {
        assert false;
      }
    }
  }

  // ------------------------------------------------------------ the stream

  datatype Fetch = Fetched(buffer: Bytes) | FetchError

  /** What `notify` asks of the engine: nothing, to mark pieces critical, or to fetch a piece from the store. */
  datatype Request = Nothing | MarkCritical(piece: int, width: nat) | Get(piece: int)

  class FileStream {
    const pieceLength: nat
    const length: int
    const startPiece: int
    const endPiece: int
    const critical: nat
    /** The torrent's bytes, which a verified piece fetched from the store holds. */
    ghost const torrent: Bytes
    /** Where the stream starts in the torrent: `opts.start + file.offset`. */
    ghost const begin: int

    var destroyed: bool
    var piece: int
    var missing: int
    var reading: bool
    var notifying: bool
    var skip: int
    /** The buffers pushed, in order, and whether the end (`push(null)`) was pushed. */
    var pushed: seq<Bytes>
    var ended: bool
    /** How many times `close` was emitted. */
    var closes: nat

    /**
     * The stream gives the torrent's bytes from `begin` on: what it pushed so
     * far is the next `length - missing` of them, and while it is still
     * reading, the piece it fetches next (or is fetching) starts `skip` bytes
     * before the next byte to push.
     */
    ghost predicate Tracking()
      reads this
    {
      Tracks(torrent, begin, length, pieceLength, pushed, missing, ended, notifying, reading, destroyed, piece, skip)
    }

    /** `new FileStream(engine, file, opts)`, for a file at `fileOffset` in a torrent of `pieceLength`-byte pieces. */
    constructor (pieceLength: nat, fileOffset: nat, fileLength: nat, start: nat, end: Option<int>, ghost torrent: Bytes)
      requires pieceLength > 0
      ensures this.pieceLength == pieceLength && this.torrent == torrent && begin == start + fileOffset
      ensures length == EndOf(end, fileLength) - start + 1
      ensures startPiece == PieceOf(start + fileOffset, pieceLength)
      ensures endPiece == PieceOf(EndOf(end, fileLength) + fileOffset, pieceLength)
      ensures critical == CriticalCount(pieceLength)
      ensures piece == startPiece && missing == length && skip == start + fileOffset - startPiece * pieceLength
      ensures !destroyed && !reading && !notifying && pushed == [] && !ended && closes == 0
      ensures (&& start <= EndOf(end, fileLength) + 1 && start + fileOffset + length <= |torrent|
               && start + fileOffset < 0x8000_0000 * pieceLength) ==> Tracking()
    {
      var offset := start + fileOffset;
      var last := EndOf(end, fileLength);
      this.pieceLength := pieceLength;
      this.torrent := torrent;
      begin := offset;
      length := last - start + 1;
      startPiece := PieceOf(offset, pieceLength);
      endPiece := PieceOf(last + fileOffset, pieceLength);
      destroyed := false;
      piece := PieceOf(offset, pieceLength);
      missing := last - start + 1;
      reading := false;
      notifying := false;
      critical := CriticalCount(pieceLength);
      skip := offset - PieceOf(offset, pieceLength) * pieceLength;
      pushed := [];
      ended := false;
      closes := 0;
      if offset < 0x8000_0000 * pieceLength {
        FirstOffset(offset, pieceLength);
        Storage.PieceStartIsProduct(PieceOf(offset, pieceLength), pieceLength);
      }
    }

    /** `_read()`: start reading unless already reading. */
    method Read(verified: set<int>) returns (req: Request)
      modifies this`reading, this`notifying, this`piece
      ensures old(reading) ==> req == Nothing && piece == old(piece) && notifying == old(notifying) && reading
      ensures !old(reading) ==> reading && req == NotifyRequest(old(missing), old(piece), old(notifying), critical, verified)
      ensures piece == old(piece) + (if req.Get? then 1 else 0)
      ensures notifying == (old(notifying) || req.Get?)
      ensures old(Tracking()) ==> Tracking()
    {
      if reading {
        return Nothing;
      }
      reading := true;
      req := Notify(verified);
    }

    /**
     * `notify()`: with the next piece verified and no fetch in flight, fetch
     * it and move on to the one after; with it unverified, mark it and the
     * following ones critical.
     */
    method Notify(verified: set<int>) returns (req: Request)
      modifies this`notifying, this`piece
      ensures req == (if !reading then Nothing else NotifyRequest(old(missing), old(piece), old(notifying), critical, verified))
      ensures piece == old(piece) + (if req.Get? then 1 else 0)
      ensures notifying == (old(notifying) || req.Get?)
      ensures old(Tracking()) ==> Tracking()
    {
      if !reading || missing == 0 {
        return Nothing;
      }
      if piece !in verified {
        return MarkCritical(piece, critical);
      }
      if notifying {
        return Nothing;
      }
      notifying := true;
      req := Get(piece);
      piece := piece + 1;
    }

    /**
     * The store's callback for the fetch in flight: a stream destroyed or no
     * longer reading meanwhile drops the result, an error destroys the
     * stream, and a buffer is delivered.
     */
    method OnFetched(result: Fetch)
      requires notifying
      modifies this
      ensures !notifying && piece == old(piece)
      ensures old(destroyed) || !old(reading) ==>
                pushed == old(pushed) && missing == old(missing) && ended == old(ended) && destroyed == old(destroyed)
      ensures !old(destroyed) && old(reading) && result.FetchError? ==>
                pushed == old(pushed) && destroyed && closes == old(closes) + 1
      ensures !old(destroyed) && old(reading) && result.Fetched? ==>
                var chunk := Trim(result.buffer, old(skip), old(missing));
                && pushed == old(pushed) + [chunk] && missing == old(missing) - |chunk|
                && (missing == 0 ==> ended && reading) && (missing != 0 ==> ended == old(ended) && !reading)
                && skip == 0 && !destroyed
      ensures old(destroyed) || !old(reading) || result.FetchError? ==> (old(Tracking()) ==> Tracking())
    {
      if destroyed || !reading {
        notifying := false;
        return;
      }
      if result.FetchError? {
        notifying := false;
        Destroy();
        return;
      }
      Deliver(result.buffer);
    }

    /**
     * The callback with a buffer: trim it, count it off `missing` and push
     * it, and push the end when nothing is missing.
     */
    method Deliver(buffer: Bytes)
      requires notifying && reading && !destroyed
      modifies this`notifying, this`skip, this`missing, this`pushed, this`ended, this`reading
      ensures !notifying
      ensures var chunk := Trim(buffer, old(skip), old(missing));
              && pushed == old(pushed) + [chunk] && missing == old(missing) - |chunk|
              && (missing == 0 ==> ended && reading) && (missing != 0 ==> ended == old(ended) && !reading)
              && skip == 0
    {
      notifying := false;
      var chunk := Trim(buffer, skip, missing);
      skip := 0;
      missing := missing - |chunk|;
      pushed := pushed + [chunk];
      if missing == 0 {
        ended := true;
      } else {
        reading := false;
      }
    }

  /** `destroy()`: the first call marks the stream destroyed and emits `close`; later calls do nothing. */
    method Destroy()
      modifies this`destroyed, this`closes
      ensures destroyed
      ensures closes == old(closes) + (if old(destroyed) then 0 else 1)
    {
      if destroyed {
        return;
      }
      destroyed := true;
      closes := closes + 1;
    }
  }

  /**
   * The stream gives the torrent's bytes from `begin` on: what it pushed so
   * far is the next `length - missing` of them, and while it is still
   * reading, the piece it fetches next (or is fetching) starts `skip` bytes
   * before the next byte to push.
   */
  ghost predicate Tracks(torrent: Bytes, begin: int, length: int, pl: nat, pushed: seq<Bytes>, missing: int,
                         ended: bool, notifying: bool, reading: bool, destroyed: bool, piece: int, skip: int)
  {
    && pl > 0 && 0 <= begin && 0 <= length && begin + length <= |torrent|
    && 0 <= missing <= length
    && Concat(pushed) == torrent[begin..begin + (length - missing)]
    && (ended ==> missing == 0)
    && (notifying ==> reading && missing > 0)
    && (!destroyed && !ended && missing > 0 ==>
          var next := if notifying then piece - 1 else piece;
          && next >= 0 && 0 <= skip < pl
          && Storage.PieceStart(next, pl) + skip == begin + (length - missing))
  }

  /** Delivering the piece being fetched keeps the stream on track. */
  lemma DeliverTracks(torrent: Bytes, begin: int, length: int, pl: nat, pushed: seq<Bytes>, missing: int,
                      ended: bool, notifying: bool, reading: bool, destroyed: bool, piece: int, skip: int, buffer: Bytes,
                      pushed': seq<Bytes>, missing': int, ended': bool, notifying': bool, reading': bool, destroyed': bool,
                      skip': int)
    requires Tracks(torrent, begin, length, pl, pushed, missing, ended, notifying, reading, destroyed, piece, skip)
    requires notifying && reading && !destroyed
    requires buffer == PieceBytes(torrent, Storage.PieceStart(piece - 1, pl), pl)
    requires var chunk := Trim(buffer, skip, missing);
             && pushed' == pushed + [chunk] && missing' == missing - |chunk|
             && ended' == (ended || missing' == 0) && reading' == (missing' == 0)
             && !notifying' && !destroyed' && skip' == 0
    ensures Tracks(torrent, begin, length, pl, pushed', missing', ended', notifying', reading', destroyed', piece, skip')
  {
    var ps := Storage.PieceStart(piece - 1, pl);
    TrimPiece(torrent, ps, pl, skip, missing);
    TrimNonEmpty(torrent, ps, pl, skip, missing);
    PushPiece(torrent, begin, length, pl, pushed, missing, ps, Trim(buffer, skip, missing));
    assert Storage.PieceStart(piece, pl) == ps + pl;
  }

  /** What `notify` asks for, from the stream's state and the engine's verified pieces. */
  function NotifyRequest(missing: int, piece: int, notifying: bool, critical: nat, verified: set<int>): (r: Request)
    ensures r.Get? <==> missing != 0 && piece in verified && !notifying
    ensures r.Get? ==> r.piece == piece
    ensures r.MarkCritical? <==> missing != 0 && piece !in verified
    ensures r.MarkCritical? ==> r == MarkCritical(piece, critical)
  {
    if missing == 0 then Nothing
    else if piece !in verified then MarkCritical(piece, critical)
    else if notifying then Nothing
    else Get(piece)
  }

  /**
   * Pushing the next bytes of the range keeps the pushed bytes the
   * torrent's bytes from `begin`, and a push that does not finish the range
   * leaves the position at the start of the next piece.
   */
  lemma PushPiece(torrent: Bytes, begin: nat, length: nat, pl: nat, pushed: seq<Bytes>, missing: nat, ps: nat,
                  chunk: Bytes)
    requires missing <= length && begin + length <= |torrent| && 0 < |chunk| <= missing
    requires Concat(pushed) == torrent[begin..begin + (length - missing)]
    requires chunk == torrent[begin + (length - missing)..begin + (length - missing) + |chunk|]
    requires |chunk| < missing ==> begin + (length - missing) + |chunk| == ps + pl
    ensures 0 <= missing - |chunk| < missing
    ensures Concat(pushed + [chunk]) == torrent[begin..begin + (length - (missing - |chunk|))]
    ensures missing - |chunk| > 0 ==> ps + pl == begin + (length - (missing - |chunk|))
  {
    AppendChunk(torrent, begin, begin + (length - missing), pushed, chunk);
  }

  /** The torrent's bytes from `begin`, followed by the ones after them, are the longer run from `begin`. */
  lemma AppendChunk(torrent: Bytes, begin: nat, pos: nat, pushed: seq<Bytes>, chunk: Bytes)
    requires begin <= pos && pos + |chunk| <= |torrent|
    requires Concat(pushed) == torrent[begin..pos] && chunk == torrent[pos..pos + |chunk|]
    ensures Concat(pushed + [chunk]) == torrent[begin..pos + |chunk|]
  {
    ConcatSnoc(pushed, chunk);
    SliceJoin(torrent, begin, pos, pos + |chunk|);
  }

  /** A piece read at a position inside it, with bytes still missing, gives at least one byte. */
  lemma TrimNonEmpty(torrent: Bytes, ps: nat, pl: nat, skip: nat, missing: nat)
    requires skip < pl && ps + skip + missing <= |torrent| && missing > 0
    ensures |Trim(PieceBytes(torrent, ps, pl), skip, missing)| > 0
  {
    var buffer := PieceBytes(torrent, ps, pl);
    assert |buffer| > skip;
  }

  lemma SliceJoin(t: Bytes, a: nat, b: nat, c: nat)
    requires a <= b <= c <= |t|
    ensures t[a..b] + t[b..c] == t[a..c]
  {
  }

  lemma ConcatSnoc(list: seq<Bytes>, b: Bytes)
    ensures Concat(list + [b]) == Concat(list) + b
  {
    assert (list + [b])[..|list|] == list;
  }

  /**
   * The test file: 36115 bytes at offset 0 in 32768-byte pieces, read from
   * byte 36109. The stream starts in piece 1, skips 3341 bytes of it and
   * wants 6 bytes, which are the last 6 bytes of that 3347-byte piece, and
   * then ends.
   */
  lemma TestStreamFromOffset(torrent: Bytes)
    requires |torrent| == 36115
    ensures PieceOf(36109, 32768) == 1 && EndOf(None, 36115) - 36109 + 1 == 6
    ensures 36109 - 1 * 32768 == 3341 && Storage.PieceStart(1, 32768) == 32768
    ensures var piece := PieceBytes(torrent, 32768, 32768);
            |piece| == 3347 && Trim(piece, 3341, 6) == piece[3341..] == torrent[36109..]
  {
    Storage.PieceStartIsProduct(1, 32768);
    var piece := PieceBytes(torrent, 32768, 32768);
    assert piece[3341..] == torrent[36109..];
  }
}

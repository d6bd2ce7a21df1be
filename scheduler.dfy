/**
 * The scheduler of the three engine generations (lib/torrent-client.js,
 * engine.js, lib/TorrentStream.js) as one class whose `version` picks the
 * generation where they differ: the piece table and reservation lists, the
 * selection list and its gc, interest, the per-wire request issuing with
 * hotswap and speed ranking, the block callback with the digest check,
 * the bad-piece strikes, and the verification pass.
 */
module Scheduler {
  import opened Wrappers
  import opened Bytes
  import opened Piece
  import opened Peer
  import opened EngineEvents
  import opened Selection
  import opened SpeedRank

  /** A piece digest (the hex SHA-1 string of the source); never inspected, only compared. */
  type Digest = seq<char>

  const BAD_PIECE_STRIKES_MAX: nat := 3
  const BAD_PIECE_STRIKES_DURATION: int := 120000

  /** `(length % pieceLength) || pieceLength`: the length of the last piece. */
  function LastPieceLength(totalLength: nat, pieceLength: nat): (r: nat)
    requires pieceLength > 0
    ensures 0 < r <= pieceLength
  {
    if totalLength % pieceLength == 0 then pieceLength else totalLength % pieceLength
  }

  /** The length of piece `k` of `count`: the last one gets the remainder. */
  function PieceLengthAt(k: int, count: nat, pieceLength: nat, totalLength: nat): (r: nat)
    requires pieceLength > 0
  {
    if k == count - 1 then LastPieceLength(totalLength, pieceLength) else pieceLength
  }

  /**
   * When the piece count is `ceil(totalLength / pieceLength)`, the piece
   * lengths add up to the torrent's length.
   */
  lemma PieceLengthsSum(count: nat, pieceLength: nat, totalLength: nat)
    requires pieceLength > 0 && totalLength > 0
    requires count == (totalLength + pieceLength - 1) / pieceLength
    ensures count >= 1
    ensures (count - 1) * pieceLength + PieceLengthAt(count - 1, count, pieceLength, totalLength) == totalLength
    ensures forall k :: 0 <= k < count - 1 ==> PieceLengthAt(k, count, pieceLength, totalLength) == pieceLength
  {
    var q := totalLength / pieceLength;
    var m := totalLength % pieceLength;
    assert totalLength == q * pieceLength + m;
    if m == 0 {
      assert totalLength + pieceLength - 1 == q * pieceLength + (pieceLength - 1);
      DivideExactly(totalLength + pieceLength - 1, pieceLength, q, pieceLength - 1);
      assert q >= 1;
    } else {
      assert totalLength + pieceLength - 1 == (q + 1) * pieceLength + (m - 1);
      DivideExactly(totalLength + pieceLength - 1, pieceLength, q + 1, m - 1);
    }
  }

  // Integer division facts the piece-count arithmetic needs.

  lemma {:induction false} MulAtLeast(k: int, d: int)
    requires d > 0 && k >= 1
    ensures k * d >= d
    decreases k
  {
    if k > 1 {
      MulAtLeast(k - 1, d);
      assert k * d == (k - 1) * d + d;
    }
  }

  lemma {:induction false} MulAtMost(k: int, d: int)
    requires d > 0 && k <= -1
    ensures k * d <= -d
    decreases -k
  {
    if k < -1 {
      MulAtMost(k + 1, d);
      assert k * d == (k + 1) * d - d;
    }
  }

  lemma MulSign(k: int, d: int)
    requires d > 0
    ensures k >= 1 ==> k * d >= d
    ensures k <= -1 ==> k * d <= -d
  {
    if k >= 1 {
      MulAtLeast(k, d);
    } else if k <= -1 {
      MulAtMost(k, d);
    }
  }

  /** Division is exact on `c * d + r` with `0 <= r < d`. */
  lemma DivideExactly(x: int, d: int, c: int, r: int)
    requires d > 0 && 0 <= r < d && x == c * d + r
    ensures x / d == c
  {
    var c' := x / d;
    var r' := x % d;
    assert x == c' * d + r';
    assert (c - c') * d == r' - r;
    MulSign(c - c', d);
  }

  /** Which pieces have no assembly buffer any more (complete). */
  function LiveOf(ps: seq<PieceBuffer?<Wire?>>): (r: seq<bool>)
    ensures |r| == |ps| && forall k :: 0 <= k < |ps| ==> (r[k] <==> ps[k] != null)
  {
    seq(|ps|, k requires 0 <= k < |ps| => ps[k] != null)
  }

  /**
   * The `verify` events of a verification pass over the first `n` pieces:
   * one per piece whose stored bytes pass the check (`pass`) and which is
   * still being assembled (`live`), in index order.
   */
  function VerifyLog(pass: seq<bool>, live: seq<bool>, n: nat): seq<Event>
    requires n <= |pass| && n <= |live|
  {
    if n == 0 then []
    else VerifyLog(pass, live, n - 1) + (if pass[n - 1] && live[n - 1] then [Verify(n - 1)] else [])
  }

  /** The pass announces exactly the passing live pieces. */
  lemma {:induction false} VerifyLogExactly(pass: seq<bool>, live: seq<bool>, n: nat)
    requires n <= |pass| && n <= |live|
    ensures forall e :: e in VerifyLog(pass, live, n) ==> e.Verify? && e.index < n
    ensures forall k: nat :: Verify(k) in VerifyLog(pass, live, n) <==> k < n && pass[k] && live[k]
  {
    if n > 0 {
      VerifyLogExactly(pass, live, n - 1);
      var prev := VerifyLog(pass, live, n - 1);
      var last := if pass[n - 1] && live[n - 1] then [Verify(n - 1)] else [];
      assert VerifyLog(pass, live, n) == prev + last;
      assert forall e :: e in prev + last <==> e in prev || e in last;
    }
  }

  /** `verify` events only, with strictly ascending indices. */
  predicate Ascending(log: seq<Event>)
  {
    forall a, b :: 0 <= a < b < |log| ==> log[a].Verify? && log[b].Verify? && log[a].index < log[b].index
  }

  /** Each piece is announced at most once, in ascending index order. */
  lemma {:induction false} VerifyLogAscending(pass: seq<bool>, live: seq<bool>, n: nat)
    requires n <= |pass| && n <= |live|
    ensures Ascending(VerifyLog(pass, live, n))
  {
    if n > 0 {
      VerifyLogAscending(pass, live, n - 1);
      VerifyLogExactly(pass, live, n - 1);
      var prev := VerifyLog(pass, live, n - 1);
      if pass[n - 1] && live[n - 1] {
        AscendingSnoc(prev, n - 1);
      } else {
        assert VerifyLog(pass, live, n) == prev;
      }
    }
  }

  lemma AscendingSnoc(log: seq<Event>, k: nat)
    requires Ascending(log) && forall e :: e in log ==> e.Verify? && e.index < k
    ensures Ascending(log + [Verify(k)])
  {
    var r := log + [Verify(k)];
    forall a, b | 0 <= a < b < |r|
      ensures r[a].Verify? && r[b].Verify? && r[a].index < r[b].index
    {
      assert r[a] == log[a] && log[a] in log;
      if b < |log| {
        assert r[b] == log[b];
      }
    }
  }

  /** The piece table after a verification pass over the first `n` pieces: each passing one nulled. */
  function Nulled(ps: seq<PieceBuffer?<Wire?>>, pass: seq<bool>, n: nat): (r: seq<PieceBuffer?<Wire?>>)
    requires |pass| == |ps|
    ensures |r| == |ps|
  {
    seq(|ps|, k requires 0 <= k < |ps| => if k < n && pass[k] then null else ps[k])
  }

  lemma NulledStep(ps: seq<PieceBuffer?<Wire?>>, pass: seq<bool>, n: nat)
    requires |pass| == |ps| && n < |ps|
    ensures Nulled(ps, pass, n)[n] == ps[n]
    ensures Nulled(ps, pass, n + 1) == Nulled(ps, pass, n)[n := if pass[n] then null else ps[n]]
  {
  }

  /** The pieces a verification pass over the first `n` pieces completes. */
  function Claimed(pass: seq<bool>, live: seq<bool>, n: nat): set<nat>
    requires n <= |pass| && n <= |live|
  {
    if n == 0 then {}
    else Claimed(pass, live, n - 1) + (if pass[n - 1] && live[n - 1] then {n - 1} else {})
  }

  /** Exactly the live pieces among the first `n` whose stored bytes pass. */
  lemma {:induction false} ClaimedExactly(pass: seq<bool>, live: seq<bool>, n: nat)
    requires n <= |pass| && n <= |live|
    ensures forall k: nat :: k in Claimed(pass, live, n) <==> k < n && pass[k] && live[k]
  {
    if n > 0 {
      ClaimedExactly(pass, live, n - 1);
    }
  }

  /** What a verification pass does to the piece table and the bitfield, index by index. */
  lemma VerifiedEffect(ps0: seq<PieceBuffer?<Wire?>>, pass: seq<bool>, bf0: set<nat>,
                       ps: seq<PieceBuffer?<Wire?>>, bf: set<nat>)
    requires |pass| == |ps0|
    requires ps == Nulled(ps0, pass, |ps0|) && bf == bf0 + Claimed(pass, LiveOf(ps0), |ps0|)
    ensures |ps| == |ps0|
    ensures forall k :: 0 <= k < |ps| ==> (ps[k] == null <==> ps0[k] == null || pass[k])
    ensures forall k: nat :: k in bf <==> k in bf0 || (k < |ps0| && pass[k] && ps0[k] != null)
  {
    ClaimedExactly(pass, LiveOf(ps0), |ps0|);
  }

  /**
   * The loop of the verification pass over a piece table `ps0`: the
   * passing live pieces are nulled, collected and announced in index order.
   */
  method VerifyScan(ps0: seq<PieceBuffer?<Wire?>>, pass: seq<bool>)
    returns (ps: seq<PieceBuffer?<Wire?>>, claimed: set<nat>, log: seq<Event>)
    requires |pass| == |ps0|
    ensures ps == Nulled(ps0, pass, |ps0|)
    ensures claimed == Claimed(pass, LiveOf(ps0), |ps0|)
    ensures log == VerifyLog(pass, LiveOf(ps0), |ps0|)
  {
    ghost var live0 := LiveOf(ps0);
    ps, claimed, log := ps0, {}, [];
    var i := 0;
    while i < |ps0|
      invariant 0 <= i <= |ps0|
      invariant ps == Nulled(ps0, pass, i)
      invariant claimed == Claimed(pass, live0, i)
      invariant log == VerifyLog(pass, live0, i)
    {
      NulledStep(ps0, pass, i);
      if pass[i] && ps[i] != null {
        ps, claimed, log := ps[i := null], claimed + {i}, log + [Verify(i)];
      }
      i := i + 1;
    }
  }

  /** `r.indexOf(null)`, with the length standing for -1 (the slot `r[r.length]` is then appended). */
  function FirstFree(r: seq<Wire?>): (i: nat)
    ensures i <= |r|
    ensures i < |r| ==> r[i] == null
    ensures forall k :: 0 <= k < i ==> r[k] != null
  {
    if r == [] then 0 else if r[0] == null then 0 else 1 + FirstFree(r[1..])
  }

  /** `r[i] = wire` at the first free slot. */
  function Enlist(r: seq<Wire?>, wire: Wire): (r': seq<Wire?>)
  {
    var i := FirstFree(r);
    if i == |r| then r + [wire] else r[i := wire]
  }

  /** Enlisting keeps every holder and fills the first free slot, appending only when there is none. */
  lemma EnlistPlacement(r: seq<Wire?>, wire: Wire)
    ensures var i := FirstFree(r);
      && |Enlist(r, wire)| == (if i == |r| then |r| + 1 else |r|)
      && Enlist(r, wire)[i] == wire
      && forall k :: 0 <= k < |r| && k != i ==> Enlist(r, wire)[k] == r[k]
  {
  }

  /** A reservation holder that hotswap may evict: another wire, slow, and at most half as fast. */
  predicate Evictable(o: Wire?, wire: Wire, speed: nat)
    reads o
  {
    o != null && o != wire && o.downSpeed < SPEED_THRESHOLD && 2 * o.downSpeed <= speed
  }

  /** The slot of the victim hotswap picks: the last of the slowest evictable holders. */
  function VictimIn(r: seq<Wire?>, wire: Wire, speed: nat): (v: Option<nat>)
    reads set o | o in r && o != null
    ensures v.Some? ==> v.value < |r| && Evictable(r[v.value], wire, speed)
  {
    if r == [] then None
    else
      var v := VictimIn(r[..|r| - 1], wire, speed);
      var o := r[|r| - 1];
      if Evictable(o, wire, speed) && (v.None? || o.downSpeed <= r[v.value].downSpeed) then Some(|r| - 1) else v
  }

  /**
   * The victim is evictable, no evictable holder is slower, and none after
   * it is as slow; there is none exactly when no holder is evictable.
   */
  lemma {:induction false} VictimIsLastSlowest(r: seq<Wire?>, wire: Wire, speed: nat)
    ensures VictimIn(r, wire, speed).None? <==> forall k :: 0 <= k < |r| ==> !Evictable(r[k], wire, speed)
    ensures VictimIn(r, wire, speed).Some? ==>
              var v := VictimIn(r, wire, speed).value;
              && (forall k :: 0 <= k < |r| && Evictable(r[k], wire, speed) ==> r[v].downSpeed <= r[k].downSpeed)
              && (forall k :: v < k < |r| && Evictable(r[k], wire, speed) ==> r[v].downSpeed < r[k].downSpeed)
  {
    if r != [] {
      var init := r[..|r| - 1];
      VictimIsLastSlowest(init, wire, speed);
      assert forall k :: 0 <= k < |init| ==> init[k] == r[k];
    }
  }

  /** `if (r[i] === min) r[i] = null` over every slot. */
  function Evict(r: seq<Wire?>, victim: Wire): (r': seq<Wire?>)
    ensures |r'| == |r|
    ensures forall k :: 0 <= k < |r| ==> r'[k] == (if r[k] == victim then null else r[k])
  {
    seq(|r|, k requires 0 <= k < |r| => if r[k] == victim then null else r[k])
  }

  /** The block indices of the requests for piece `index`, in order (`(req.offset / BLOCK_SIZE) | 0`). */
  function BlocksOf(reqs: seq<Request>, index: nat): seq<nat>
  {
    if reqs == [] then []
    else BlocksOf(reqs[..|reqs| - 1], index)
         + (if reqs[|reqs| - 1].piece == index then [reqs[|reqs| - 1].offset / BLOCK_SIZE] else [])
  }

  lemma BlocksOfSnoc(s: seq<Request>, q: Request, index: nat)
    ensures BlocksOf(s + [q], index) == BlocksOf(s, index) + (if q.piece == index then [q.offset / BLOCK_SIZE] else [])
  {
    assert (s + [q])[..|s|] == s;
  }

  lemma {:induction false} BlocksOfMembers(reqs: seq<Request>, index: nat)
    ensures forall b :: b in BlocksOf(reqs, index) ==> exists q :: q in reqs && q.piece == index && b == q.offset / BLOCK_SIZE
    ensures forall q :: q in reqs && q.piece == index ==> q.offset / BLOCK_SIZE in BlocksOf(reqs, index)
  {
    if reqs != [] {
      BlocksOfMembers(reqs[..|reqs| - 1], index);
      assert reqs == reqs[..|reqs| - 1] + [reqs[|reqs| - 1]];
    }
  }

  /** The strikes younger than the window: `filter(now - strike < BAD_PIECE_STRIKES_DURATION)`. */
  function Recent(strikes: seq<int>, now: int): (r: seq<int>)
    ensures |r| <= |strikes|
  {
    if strikes == [] then []
    else Recent(strikes[..|strikes| - 1], now)
         + (if now - strikes[|strikes| - 1] < BAD_PIECE_STRIKES_DURATION then [strikes[|strikes| - 1]] else [])
  }

  /** The pruning keeps exactly the strikes inside the window. */
  lemma {:induction false} RecentExactly(strikes: seq<int>, now: int)
    ensures forall s :: s in Recent(strikes, now) <==> s in strikes && now - s < BAD_PIECE_STRIKES_DURATION
  {
    if strikes != [] {
      RecentExactly(strikes[..|strikes| - 1], now);
      assert strikes == strikes[..|strikes| - 1] + [strikes[|strikes| - 1]];
    }
  }

  /** A source of a piece that failed its digest check: the window pruned, then the new strike. */
  function Struck(strikes: seq<int>, now: int): (r: seq<int>)
  {
    Recent(strikes, now) + [now]
  }

  /** After a strike the window holds the new strike and exactly the earlier ones still inside it. */
  lemma StruckMembers(strikes: seq<int>, now: int)
    ensures var r := Struck(strikes, now);
      && |r| >= 1 && r[|r| - 1] == now
      && forall s :: s in r <==> s == now || (s in strikes && now - s < BAD_PIECE_STRIKES_DURATION)
  {
    RecentExactly(strikes, now);
  }

  lemma PrefixStep<T>(s: seq<T>, k: nat)
    requires k < |s|
    ensures s[..k + 1] == s[..k] + [s[k]]
  {
  }

  /** `engine.block(wire.peerAddress)` for each struck source now over the maximum, in order. */
  ghost function BlockLog(srcs: seq<Wire?>): seq<Event>
    reads srcs
  {
    if srcs == [] then []
    else
      var w := srcs[|srcs| - 1];
      BlockLog(srcs[..|srcs| - 1])
      + (if w != null && |w.badPieceStrikes| > BAD_PIECE_STRIKES_MAX then [BlockPeer(w.address)] else [])
  }

  /**
   * How a request callback ended: the piece moved on (`p !== pieces[index]`),
   * the request failed, the block was stored with more to come, or the
   * piece was assembled and its digest did or did not match.
   */
  datatype Outcome =
    | Stale
    | Failed
    | Stored
    | Corrupt(data: Bytes, sources: seq<Wire?>)
    | Completed(data: Bytes)

  /** The `n` indices from `piece` on. */
  function Span(piece: int, n: int): set<int>
    decreases n
  {
    if n <= 0 then {} else Span(piece, n - 1) + {piece + n - 1}
  }

  lemma {:induction false} SpanMembers(piece: int, n: int)
    ensures forall x :: x in Span(piece, n) <==> piece <= x < piece + n
    decreases n
  {
    if n > 0 {
      SpanMembers(piece, n - 1);
    }
  }

  /** `width || 1`: how many pieces `critical(piece, width)` marks. */
  function CriticalWidth(width: int): int
  {
    if width == 0 then 1 else width
  }

  /** `critical(piece)` marks just `piece`; a negative width marks nothing. */
  lemma CriticalSpanCases(piece: int, width: int)
    ensures width == 0 ==> Span(piece, CriticalWidth(width)) == {piece}
    ensures width < 0 ==> Span(piece, CriticalWidth(width)) == {}
    ensures width > 0 ==> forall x :: x in Span(piece, CriticalWidth(width)) <==> piece <= x < piece + width
  {
    SpanMembers(piece, CriticalWidth(width));
  }

  /** The victim scan of hotswap, keeping the slowest candidate so far (a later one wins a tie). */
  method FindVictim(r: seq<Wire?>, wire: Wire, speed: nat) returns (min: Option<nat>)
    ensures min == VictimIn(r, wire, speed)
  {
    min := None;
    var i := 0;
    while i < |r|
      invariant 0 <= i <= |r|
      invariant min == VictimIn(r[..i], wire, speed)
    {
      assert r[..i + 1][..i] == r[..i];
      var other := r[i];
      if other != null && other != wire && other.downSpeed < SPEED_THRESHOLD && 2 * other.downSpeed <= speed
         && (min.None? || other.downSpeed <= r[min.value].downSpeed) {
        min := Some(i);
      }
      i := i + 1;
    }
    assert r[..|r|] == r;
  }

  /** `for (i = 0; i < r.length; i++) if (r[i] === min) r[i] = null`. */
  method EvictAll(r: seq<Wire?>, victim: Wire) returns (r': seq<Wire?>)
    ensures r' == Evict(r, victim)
  {
    r' := r;
    var i := 0;
    while i < |r'|
      invariant 0 <= i <= |r'| && |r'| == |r|
      invariant forall k :: 0 <= k < |r| ==> r'[k] == (if k < i && r[k] == victim then null else r[k])
    {
      if r'[i] == victim {
        r' := r'[i := null];
      }
      i := i + 1;
    }
  }

  /** One request's block goes back to `p`'s cancellation stack when it is for piece `index`. */
  method CancelRequest(p: PieceBuffer<Wire?>, q: Request, index: nat)
    requires p.Valid()
    requires q.piece == index ==> q.reservation < p.parts && q.offset == BlockOffset(q.reservation)
    modifies p
    ensures p.Valid()
    ensures p.cancellations == old(p.cancellations) + (if old(p.flushed) || q.piece != index then [] else [q.offset / BLOCK_SIZE])
    ensures p.flushed == old(p.flushed) && p.sources == old(p.sources)
    ensures p.missing == old(p.missing) && p.reservations == old(p.reservations)
  {
    if q.piece == index {
      BlockOfOffset(q.reservation);
      p.Cancel(q.offset / BLOCK_SIZE);
    }
  }

  lemma BlockOfOffset(r: nat)
    ensures BlockOffset(r) / BLOCK_SIZE == r
  {
  }

  /** The cancel loop of hotswap: each request for piece `index` puts its block back on `p`'s stack. */
  method CancelRequests(p: PieceBuffer<Wire?>, reqs: seq<Request>, index: nat)
    requires p.Valid()
    requires forall q :: q in reqs && q.piece == index ==>
               q.reservation < p.parts && q.offset == BlockOffset(q.reservation)
    modifies p
    ensures p.Valid()
    ensures p.cancellations == old(p.cancellations) + (if old(p.flushed) then [] else BlocksOf(reqs, index))
    ensures p.flushed == old(p.flushed) && p.sources == old(p.sources)
    ensures p.missing == old(p.missing) && p.reservations == old(p.reservations)
  {
    ghost var c0 := p.cancellations;
    ghost var flushed := p.flushed;
    var i := 0;
    while i < |reqs|
      invariant 0 <= i <= |reqs|
      invariant p.Valid()
      invariant p.cancellations == c0 + (if flushed then [] else BlocksOf(reqs[..i], index))
      invariant p.flushed == flushed && p.sources == old(p.sources)
      invariant p.missing == old(p.missing) && p.reservations == old(p.reservations)
    {
      var q := reqs[i];
      PrefixStep(reqs, i);
      BlocksOfSnoc(reqs[..i], q, index);
      assert q in reqs;
      CancelRequest(p, q, index);
      i := i + 1;
    }
    assert reqs[..|reqs|] == reqs;
  }

  /** What the ranker reads of each connected wire for piece `index`. */
  function OthersOf(ws: seq<Wire>, index: int): (r: seq<Other>)
    reads ws`downSpeed, ws`peerPieces
    ensures |r| == |ws|
  {
    if ws == [] then [] else [Other(ws[0].downSpeed, index in ws[0].peerPieces)] + OthersOf(ws[1..], index)
  }

  /** Piece `j` lies in the window `from + offset .. to` of some selected range. */
  ghost predicate InWindow(s: seq<Range>, j: int)
  {
    exists i :: 0 <= i < |s| && s[i].from + s[i].offset <= j <= s[i].to
  }

  /** Piece `j` lies in the window `from + offset .. to` of range `r`. */
  predicate Covers(r: Range, j: int)
  {
    r.from + r.offset <= j <= r.to
  }

  /** No range of `sel` has a piece of `ok` in its window. */
  ghost predicate NoneIn(sel: seq<Range>, ok: set<int>)
  {
    forall i, k :: 0 <= i < |sel| && Covers(sel[i], k) ==> k !in ok
  }

  /** The inner loop of `onvalidatewire`: from `j` down to `lo`, the first piece in `ok`. */
  function ScanDown(lo: int, j: int, ok: set<int>): Option<int>
    decreases j - lo
  {
    if j < lo then None else if j in ok then Some(j) else ScanDown(lo, j - 1, ok)
  }

  /**
   * The whole scan of `onvalidatewire`: the ranges last to first, and in
   * each its window from `to` down to the cursor; the first piece in `ok`.
   */
  function ValidateScan(sel: seq<Range>, ok: set<int>): Option<int>
  {
    if sel == [] then None
    else
      var last := sel[|sel| - 1];
      var r := ScanDown(last.from + last.offset, last.to, ok);
      if r.Some? then r else ValidateScan(sel[..|sel| - 1], ok)
  }

  lemma {:induction false} ScanDownSpec(lo: int, j: int, ok: set<int>)
    ensures ScanDown(lo, j, ok).None? <==> forall k :: lo <= k <= j ==> k !in ok
    ensures ScanDown(lo, j, ok).Some? ==>
              var x := ScanDown(lo, j, ok).value;
              lo <= x <= j && x in ok && forall k :: x < k <= j ==> k !in ok
    decreases j - lo
  {
    if j >= lo && j !in ok {
      ScanDownSpec(lo, j - 1, ok);
    }
  }

  /**
   * Piece `j` sits in the window of range `i` of `sel`, no piece of `ok`
   * lies above it in that window, and none lies in the windows of the
   * ranges after `i`.
   */
  ghost predicate FoundAt(sel: seq<Range>, ok: set<int>, j: int, i: int)
  {
    && 0 <= i < |sel| && Covers(sel[i], j)
    && (forall k :: j < k <= sel[i].to ==> k !in ok)
    && NoneIn(sel[i + 1..], ok)
  }

  /**
   * The scan finds nothing exactly when no window holds a piece of `ok`;
   * otherwise it finds a piece of `ok` in the window of some range `i`,
   * with no piece of `ok` above it in that window and none in the windows
   * of the ranges after `i`.
   */
  lemma {:induction false} ValidateScanSpec(sel: seq<Range>, ok: set<int>)
    ensures ValidateScan(sel, ok).None? <==> NoneIn(sel, ok)
    ensures ValidateScan(sel, ok).Some? ==>
              ValidateScan(sel, ok).value in ok && exists i :: FoundAt(sel, ok, ValidateScan(sel, ok).value, i)
  {
    if sel != [] {
      var n := |sel| - 1;
      var last := sel[n];
      var init := sel[..n];
      assert sel == init + [last];
      ScanDownSpec(last.from + last.offset, last.to, ok);
      ValidateScanSpec(init, ok);
      NoneInSnoc(init, last, ok);
      var r := ScanDown(last.from + last.offset, last.to, ok);
      if r.Some? {
        assert sel[n + 1..] == [];
        assert FoundAt(sel, ok, r.value, n);
      } else if ValidateScan(init, ok).Some? {
        var j := ValidateScan(init, ok).value;
        var i :| FoundAt(init, ok, j, i);
        FoundEarlier(init, last, ok, j, i);
      }
    }
  }

  lemma NoneInSnoc(init: seq<Range>, last: Range, ok: set<int>)
    ensures NoneIn(init + [last], ok) <==> NoneIn(init, ok) && forall k :: Covers(last, k) ==> k !in ok
  {
    var s := init + [last];
    assert forall i :: 0 <= i < |init| ==> s[i] == init[i];
    assert s[|init|] == last;
  }

  lemma FoundEarlier(init: seq<Range>, last: Range, ok: set<int>, j: int, i: int)
    requires FoundAt(init, ok, j, i) && forall k :: Covers(last, k) ==> k !in ok
    ensures FoundAt(init + [last], ok, j, i)
  {
    var s := init + [last];
    assert s[i + 1..] == init[i + 1..] + [last];
    NoneInSnoc(init[i + 1..], last, ok);
    assert s[i] == init[i];
  }

  /**
   * The outcome of `onvalidatewire` for a wire that had `reqs0` outstanding
   * and now has `reqs`: nothing when requests were outstanding; otherwise
   * no request when the scan finds nothing, and a single request for the
   * piece it finds.
   */
  ghost predicate Validated(reqs0: seq<Request>, reqs: seq<Request>, target: Option<int>)
  {
    if |reqs0| > 0 then reqs == reqs0
    else (target.None? ==> reqs == []) && (target.Some? ==> |reqs| == 1 && reqs[0].piece == target.value)
  }

  /** `reqs` is `base` followed by requests for piece `j` only. */
  predicate Extends(reqs: seq<Request>, base: seq<Request>, j: int)
  {
    |base| <= |reqs| && reqs[..|base|] == base && forall k :: |base| <= k < |reqs| ==> reqs[k].piece == j
  }

  lemma ExtendsStep(base: seq<Request>, reqs: seq<Request>, reqs': seq<Request>, j: int)
    requires Extends(reqs, base, j)
    requires |reqs'| == |reqs| + 1 && reqs'[..|reqs|] == reqs && reqs'[|reqs|].piece == j
    ensures Extends(reqs', base, j)
  {
    assert reqs'[..|base|] == reqs[..|base|];
    forall k | |base| <= k < |reqs'|
      ensures reqs'[k].piece == j
    {
      if k < |reqs| {
        assert reqs'[k] == reqs'[..|reqs|][k];
      }
    }
  }

  /** `reqs` keeps every request of `base`, in order, and may have more. */
  predicate Grown(base: seq<Request>, reqs: seq<Request>)
  {
    |base| <= |reqs| && reqs[..|base|] == base
  }

  lemma GrownTrans(a: seq<Request>, b: seq<Request>, c: seq<Request>)
    requires Grown(a, b) && Grown(b, c)
    ensures Grown(a, c)
  {
    assert c[..|a|] == c[..|b|][..|a|];
  }

  /**
   * For each source of a piece that failed its check: strikes older than
   * the window are dropped, `now` is added, and a source with more than
   * `BAD_PIECE_STRIKES_MAX` strikes is blocked (the returned events).
   */
  method StrikeSources(ws: seq<Wire>, srcs: seq<Wire?>, now: int) returns (blocked: seq<Event>)
    requires forall i :: 0 <= i < |srcs| ==> srcs[i] != null && srcs[i] in ws
    requires forall a, b :: 0 <= a < b < |srcs| ==> srcs[a] != srcs[b]
    modifies ws`badPieceStrikes
    ensures blocked == BlockLog(srcs)
    ensures forall w :: w in ws ==>
              w.badPieceStrikes == if w in srcs then Struck(old(w.badPieceStrikes), now) else old(w.badPieceStrikes)
  {
    StrikeAll(ws, srcs, now);
    blocked := BlockedOf(srcs);
  }

  /** Every source of a corrupt piece gets a strike at `now`; no other wire changes. */
  method StrikeAll(ws: seq<Wire>, srcs: seq<Wire?>, now: int)
    requires forall i :: 0 <= i < |srcs| ==> srcs[i] != null && srcs[i] in ws
    requires forall a, b :: 0 <= a < b < |srcs| ==> srcs[a] != srcs[b]
    modifies ws`badPieceStrikes
    ensures forall w :: w in ws ==>
              w.badPieceStrikes == if w in srcs then Struck(old(w.badPieceStrikes), now) else old(w.badPieceStrikes)
  {
    ghost var done: set<Wire?> := {};
    var k := 0;
    while k < |srcs|
      invariant 0 <= k <= |srcs|
      invariant done == set i | 0 <= i < k :: srcs[i]
      invariant forall w :: w in ws ==>
                  w.badPieceStrikes == if w in done then Struck(old(w.badPieceStrikes), now) else old(w.badPieceStrikes)
    {
      var w: Wire := srcs[k];
      assert w !in done;
      w.badPieceStrikes := Struck(w.badPieceStrikes, now);
      done := done + {w};
      k := k + 1;
    }
    assert forall w :: w in srcs <==> w in done;
  }

  /** The wires among `srcs` whose strike window has overflowed, blocked in order. */
  method BlockedOf(srcs: seq<Wire?>) returns (blocked: seq<Event>)
    requires forall i :: 0 <= i < |srcs| ==> srcs[i] != null
    ensures blocked == BlockLog(srcs)
  {
    blocked := [];
    var k := 0;
    while k < |srcs|
      invariant 0 <= k <= |srcs|
      invariant blocked == BlockLog(srcs[..k])
    {
      var w: Wire := srcs[k];
      PrefixStep(srcs, k);
      BlockLogSnoc(srcs[..k], w);
      if |w.badPieceStrikes| > BAD_PIECE_STRIKES_MAX {
        blocked := blocked + [BlockPeer(w.address)];
      }
      k := k + 1;
    }
    assert srcs[..k] == srcs;
  }

  lemma BlockLogSnoc(s: seq<Wire?>, w: Wire)
    ensures BlockLog(s + [w])
            == BlockLog(s) + (if |w.badPieceStrikes| > BAD_PIECE_STRIKES_MAX then [BlockPeer(w.address)] else [])
  {
    assert (s + [w])[..|s|] == s;
  }

  class Engine {
    const version: Version
    const pieceCount: nat
    const pieceLength: nat
    const totalLength: nat
    const digests: seq<Digest>
    const sha1: Bytes -> Digest
    const hotswapEnabled: bool

    /** `pieces[k]`: the assembly buffer, `null` once the piece is complete. */
    var pieces: seq<PieceBuffer?<Wire?>>
    /** `reservations[k]`: the wires holding blocks of piece `k` (`null` slots are free). */
    var reservations: seq<Option<seq<Wire?>>>
    var selection: seq<Range>
    var critical: set<int>
    var bitfield: set<nat>
    var amInterested: bool
    var ready: bool
    var events: seq<Event>
    /** An `onupdate` scheduled with `process.nextTick`. */
    var pendingUpdate: bool
    /** A `gc` scheduled with `process.nextTick`. */
    var pendingGc: bool
    /** The store writes issued, in order. */
    var written: seq<(nat, Bytes)>
    var wires: seq<Wire>

    function PieceLen(k: int): nat
      requires pieceLength > 0
    {
      PieceLengthAt(k, pieceCount, pieceLength, totalLength)
    }

    predicate Live(k: int)
      reads this`pieces
    {
      0 <= k < |pieces| && pieces[k] != null
    }

    /** Piece `k` is live and has a block to hand out (`reserve()` would not return -1). */
    predicate Reservable(k: int)
      reads this`pieces, if Live(k) then {pieces[k]} else {}
    {
      Live(k) && pieces[k].CanReserve()
    }

    ghost function ReservableSet(): set<int>
      reads this`pieces, Buffers()
    {
      set k | 0 <= k < |pieces| && Reservable(k)
    }

    /** The piece `onvalidatewire` would request for `w` in the current state. */
    ghost function ValidateTarget(w: Wire): Option<int>
      reads this`pieces, this`selection, Buffers(), w`peerPieces
    {
      ValidateScan(selection, w.peerPieces * ReservableSet())
    }

    ghost function Buffers(): set<PieceBuffer<Wire?>>
      reads this`pieces
    {
      set k | 0 <= k < |pieces| && pieces[k] != null :: pieces[k]
    }

    ghost predicate PiecesValid()
      reads this`pieces, this`reservations, Buffers()
    {
      && pieceLength > 0
      && |digests| == pieceCount && |pieces| == pieceCount && |reservations| == pieceCount
      && (forall k :: 0 <= k < |pieces| && pieces[k] != null ==>
            pieces[k].Valid() && pieces[k].length == PieceLen(k) && reservations[k].Some?)
      && (forall a, b :: 0 <= a < |pieces| && 0 <= b < |pieces| && a != b && pieces[a] != null ==> pieces[a] != pieces[b])
    }

    /** Every outstanding request of `w` names a real block of a real piece. */
    ghost predicate RequestsOk(w: Wire)
      reads w`requests
      requires pieceLength > 0
    {
      forall q :: q in w.requests ==>
        && q.piece < pieceCount
        && q.reservation < Parts(PieceLen(q.piece))
        && q.offset == BlockOffset(q.reservation)
    }

    ghost predicate RequestsValid()
      reads this`wires, wires`requests
      requires pieceLength > 0
    {
      forall w :: w in wires ==> RequestsOk(w)
    }

    /** Reservation holders and (in torrent-client.js) block sources are connected wires. */
    ghost predicate HoldersValid()
      reads this`pieces, this`reservations, this`wires, Buffers()
      requires |pieces| == |reservations|
    {
      && (forall k, o :: 0 <= k < |reservations| && reservations[k].Some? && o in reservations[k].value && o != null ==> o in wires)
      && (version == TorrentClient ==>
            forall k :: 0 <= k < |pieces| && pieces[k] != null ==> SourcesIn(pieces[k], wires))
      && (forall a, b :: 0 <= a < b < |wires| ==> wires[a] != wires[b])
    }

    /** Every wire recorded as a source of `p`'s blocks is one of `ws`. */
    ghost predicate SourcesIn(p: PieceBuffer<Wire?>, ws: seq<Wire>)
      reads p
    {
      forall s :: s in p.sources ==> s != null && s in ws
    }

    ghost predicate Valid()
      reads this`pieces, this`reservations, this`wires, Buffers(), wires`requests
    {
      PiecesValid() && RequestsValid() && HoldersValid()
    }

    /**
     * The piece table set up from the torrent: one fresh buffer per piece,
     * the last one of the remainder length, and empty reservation lists.
     * `verify` says whether the start-up verification loop runs
     * (lib/torrent-client.js skips it for `opts.verify === false`,
     * lib/TorrentStream.js runs it only for `options.verify === true`);
     * without it `onready`/`_onReady` runs at once: the engine is ready and
     * its refresh schedules gc and recomputes interest (no wire is
     * connected yet, so `onupdate` does nothing). engine.js has no such
     * phase: `select` and `deselect` always refresh.
     */
    constructor (version: Version, pieceLength: nat, totalLength: nat, digests: seq<Digest>,
                 sha1: Bytes -> Digest, hotswapEnabled: bool, verify: bool)
      requires pieceLength > 0
      ensures Valid()
      ensures this.version == version && pieceCount == |digests| && this.digests == digests
      ensures forall k :: 0 <= k < pieceCount ==>
                (Live(k) && fresh(pieces[k])
                 && pieces[k].length == PieceLengthAt(k, |digests|, pieceLength, totalLength)
                 && pieces[k].missing == pieces[k].length)
      ensures reservations == seq(pieceCount, _ => Some([]))
      ensures selection == [] && critical == {} && bitfield == {} && wires == []
      ensures !amInterested && ready == (version == EngineJs || !verify)
      ensures pendingGc == (version != EngineJs && !verify)
      ensures events == if pendingGc then InterestEvents(version, false, false) else []
    {
      this.version := version;
      pieceCount := |digests|;
      this.pieceLength := pieceLength;
      this.totalLength := totalLength;
      this.digests := digests;
      this.sha1 := sha1;
      this.hotswapEnabled := hotswapEnabled;
      var ps: seq<PieceBuffer?<Wire?>> := [];
      var k := 0;
      while k < |digests|
        invariant 0 <= k <= |digests| && |ps| == k
        invariant forall j :: 0 <= j < k ==>
                    (ps[j] != null && fresh(ps[j]) && ps[j].Valid()
                     && ps[j].length == PieceLengthAt(j, |digests|, pieceLength, totalLength)
                     && ps[j].missing == ps[j].length && ps[j].sources == [])
        invariant forall a, b :: 0 <= a < k && 0 <= b < k && a != b ==> ps[a] != ps[b]
      {
        var p := new PieceBuffer<Wire?>(PieceLengthAt(k, |digests|, pieceLength, totalLength));
        ps := ps + [p];
        k := k + 1;
      }
      pieces := ps;
      reservations := seq(|digests|, _ => Some([]));
      selection := [];
      critical := {};
      bitfield := {};
      amInterested := false;
      ready := version == EngineJs || !verify;
      pendingGc := version != EngineJs && !verify;
      events := if version != EngineJs && !verify then InterestEvents(version, false, false) else [];
      pendingUpdate := false;
      written := [];
      wires := [];
      new;
      assert forall k :: 0 <= k < pieceCount ==> reservations[k] == Some([]);
    }

    /**
     * `oninterestchange`: every wire is told whether the selection is
     * non-empty; torrent-client.js and TorrentStream.js also keep the flag
     * and emit on a flip.
     */
    method InterestChange()
      modifies this`amInterested, this`events
      ensures events == old(events) + InterestEvents(version, old(amInterested), |selection| > 0)
      ensures amInterested == NextInterest(version, old(amInterested), |selection| > 0)
    {
      var now := |selection| > 0;
      events := events + [Broadcast(if now then Interested else Uninterested)];
      if version == EngineJs {
        return;
      }
      var prev := amInterested;
      amInterested := now;
      if prev == now {
        return;
      }
      events := events + [if now then EmitInterested else EmitUninterested];
    }

    /**
     * `onwire(wire)`: a new connection joins the wires the engine serves.
     * engine.js first advertises the bitfield; every generation says
     * `interested` when something is selected; lib/torrent-client.js also
     * clears the seeder flag, runs `checkseeder` from piece 0 and starts an
     * empty strike window. The listeners it attaches are the engine's
     * other methods, and its timers are not modelled. The two generations
     * with a verification phase attach `onwire` only once ready.
     */
    method Connect(wire: Wire)
      requires Valid() && wire !in wires && wire.requests == [] && ready
      modifies this`wires, wire`sent, wire`amInterested, wire`isSeeder, wire`seederScan, wire`badPieceStrikes
      ensures Valid() && wires == old(wires) + [wire]
      ensures wire.sent == old(wire.sent) + (if version == EngineJs then [Bitfield(bitfield)] else [])
                                          + (if |selection| > 0 then [Interested] else [])
      ensures wire.amInterested == (old(wire.amInterested) || |selection| > 0)
      ensures version == TorrentClient ==>
                wire.badPieceStrikes == []
                && (wire.peerPiecesLength != pieceCount ==> !wire.isSeeder && wire.seederScan == 0)
                && (wire.peerPiecesLength == pieceCount ==>
                      wire.seederScan == ScanEnd(wire.peerPieces, 0, pieceCount)
                      && (wire.isSeeder <==> forall k :: 0 <= k < pieceCount ==> k in wire.peerPieces))
      ensures version != TorrentClient ==>
                wire.badPieceStrikes == old(wire.badPieceStrikes) && wire.isSeeder == old(wire.isSeeder)
                && wire.seederScan == old(wire.seederScan)
    {
      Welcome(wire);
      Enroll(wire);
    }

    /** The messages and per-wire state `onwire` sets up, before the wire is served. */
    method Welcome(wire: Wire)
      modifies wire`sent, wire`amInterested, wire`isSeeder, wire`seederScan, wire`badPieceStrikes
      ensures wire.sent == old(wire.sent) + (if version == EngineJs then [Bitfield(bitfield)] else [])
                                          + (if |selection| > 0 then [Interested] else [])
      ensures wire.amInterested == (old(wire.amInterested) || |selection| > 0)
      ensures version == TorrentClient ==>
                wire.badPieceStrikes == []
                && (wire.peerPiecesLength != pieceCount ==> !wire.isSeeder && wire.seederScan == 0)
                && (wire.peerPiecesLength == pieceCount ==>
                      wire.seederScan == ScanEnd(wire.peerPieces, 0, pieceCount)
                      && (wire.isSeeder <==> forall k :: 0 <= k < pieceCount ==> k in wire.peerPieces))
      ensures version != TorrentClient ==>
                wire.badPieceStrikes == old(wire.badPieceStrikes) && wire.isSeeder == old(wire.isSeeder)
                && wire.seederScan == old(wire.seederScan)
    {
      if version == EngineJs {
        wire.SendBitfield(bitfield);
      }
      if |selection| > 0 {
        wire.SendInterested();
      }
      if version == TorrentClient {
        wire.isSeeder := false;
        wire.seederScan := 0;
        wire.CheckSeeder(pieceCount);
        SeederIffComplete(wire.peerPieces, pieceCount);
        wire.badPieceStrikes := [];
      }
    }

    /** `swarm.wires` gains the new wire. */
    method Enroll(wire: Wire)
      requires Valid() && wire !in wires && wire.requests == []
      modifies this`wires
      ensures Valid() && wires == old(wires) + [wire]
    {
      wires := wires + [wire];
      assert RequestsOk(wire);
      assert HoldersValid();
    }

    /**
     * `gc`: each range's cursor moves over complete pieces, a range whose
     * last piece is reached and complete is dropped, and `idle` closes a
     * pass that leaves the selection empty.
     */
    method Gc()
      modifies this`selection, this`events, this`amInterested
      ensures selection == Keep(old(selection), LiveOf(pieces))
      ensures events == old(events) + GcLog(version, old(selection), LiveOf(pieces), old(amInterested))
      ensures amInterested == GcRun(version, old(selection), LiveOf(pieces), |old(selection)|, old(amInterested)).interested
    {
      ghost var s0 := selection;
      ghost var e0 := events;
      ghost var ai0 := amInterested;
      ghost var j;
      var i;
      j, i := GcSweep();
      GcEnd(version, s0, LiveOf(pieces), e0, ai0, j, selection, i, events, amInterested);
      if |selection| == 0 {
        events := events + [Idle];
      } else {
        assert events + [] == events;
      }
    }

    /** gc's loop over the selection, proved one range at a time against `GcRun`. */
    method GcSweep() returns (ghost j: nat, i: nat)
      modifies this`selection, this`events, this`amInterested
      ensures GcState(version, old(selection), LiveOf(pieces), old(events), old(amInterested),
                      j, selection, i, events, amInterested)
      ensures i >= |selection|
    {
      ghost var s0 := selection;
      ghost var e0 := events;
      ghost var ai0 := amInterested;
      ghost var live := LiveOf(pieces);
      j := 0;
      i := 0;
      GcStart(version, s0, live, e0, ai0);
      while i < |selection|
        invariant GcState(version, s0, live, e0, ai0, j, selection, i, events, amInterested)
        decreases |s0| - j
      {
        ghost var sel := selection;
        ghost var ev := events;
        ghost var interest := amInterested;
        var removed := GcVisit(i);
        GcAdvance(version, s0, live, e0, ai0, j, sel, i, ev, interest, removed, selection, events, amInterested);
        if !removed {
          i := i + 1;
        }
        j := j + 1;
      }
    }

    /** gc's handling of the range at `i`: move its cursor, and drop it when it is finished. */
    method GcVisit(i: nat) returns (removed: bool)
      requires i < |selection|
      modifies this`selection, this`events, this`amInterested
      ensures var r := old(selection)[i]; var a := Advanced(r, LiveOf(pieces));
        && removed == Finished(a, LiveOf(pieces))
        && selection == (if removed then old(selection)[..i] + old(selection)[i + 1..] else old(selection)[i := a])
        && events == old(events) + StepEvents(version, r, LiveOf(pieces), |selection|, old(amInterested))
        && amInterested == (if removed then NextInterest(version, old(amInterested), |selection| > 0) else old(amInterested))
    {
      var s := selection[i];
      var oldOffset := s.offset;
      var off := AdvanceCursor(s);
      s := s.(offset := off);
      selection := selection[i := s];
      if oldOffset != off {
        events := events + [Notify(s.notify)];
      }
      if s.to != s.from + off || Live(s.from + off) {
        return false;
      }
      selection := selection[..i] + selection[i + 1..];
      events := events + [Notify(s.notify)];
      InterestChange();
      return true;
    }

    /** `while (!pieces[s.from + s.offset] && s.from + s.offset < s.to) s.offset++`. */
    method AdvanceCursor(r: Range) returns (off: nat)
      ensures off == Advance(r.from, r.to, r.offset, LiveOf(pieces))
    {
      off := r.offset;
      while !Live(r.from + off) && r.from + off < r.to
        invariant Advance(r.from, r.to, off, LiveOf(pieces)) == Advance(r.from, r.to, r.offset, LiveOf(pieces))
        decreases r.to - r.from - off
      {
        off := off + 1;
      }
    }

    /** `critical(piece, width)`: marks `width || 1` pieces from `piece` on as critical. */
    method CriticalHint(piece: int, width: int)
      modifies this`critical
      ensures critical == old(critical) + Span(piece, CriticalWidth(width))
    {
      var w := if width == 0 then 1 else width;
      var i := 0;
      while i < w
        invariant w <= 0 ==> i == 0
        invariant w > 0 ==> 0 <= i <= w
        invariant critical == old(critical) + Span(piece, i)
      {
        critical := critical + {piece + i};
        i := i + 1;
      }
    }

    /**
     * `onpiececomplete(index, buffer)`: the first call for a piece drops its
     * buffer and reservation list, sets its bit, announces `have`, emits
     * `verify` and `download`, writes it to the store and runs gc; any
     * later call does nothing.
     */
    method OnPieceComplete(index: nat, buffer: Bytes)
      requires Valid()
      modifies this`pieces, this`reservations, this`bitfield, this`events, this`written,
               this`selection, this`amInterested
      ensures Valid()
      ensures !old(Live(index)) ==>
                && pieces == old(pieces) && reservations == old(reservations) && bitfield == old(bitfield)
                && events == old(events) && written == old(written)
                && selection == old(selection) && amInterested == old(amInterested)
      ensures old(Live(index)) ==>
                && pieces == old(pieces)[index := null]
                && reservations == old(reservations)[index := None]
                && bitfield == old(bitfield) + {index}
                && written == old(written) + [(index, buffer)]
                && selection == Keep(old(selection), LiveOf(pieces))
                && events == old(events) + [Broadcast(Have(index)), Verify(index), Download(index, buffer)]
                             + GcLog(version, old(selection), LiveOf(pieces), old(amInterested))
                && amInterested == GcRun(version, old(selection), LiveOf(pieces), |old(selection)|, old(amInterested)).interested
    {
      if !Live(index) {
        return;
      }
      DropPiece(index);
      events := events + [Broadcast(Have(index)), Verify(index), Download(index, buffer)];
      written := written + [(index, buffer)];
      Gc();
    }

    /** A complete piece leaves the table: no buffer, no reservation list, its bit set. */
    method DropPiece(index: nat)
      requires Valid() && Live(index)
      modifies this`pieces, this`reservations, this`bitfield
      ensures Valid()
      ensures pieces == old(pieces)[index := null]
      ensures reservations == old(reservations)[index := None]
      ensures bitfield == old(bitfield) + {index}
    {
      pieces := pieces[index := null];
      reservations := reservations[index := None];
      bitfield := bitfield + {index};
    }

    /**
     * `onhotswap(wire, index)` (lib/TorrentStream.js: `_onHotSwap`): a wire
     * fetching at least one block per second evicts the slowest other
     * holder of a reservation on the piece that is below the speed
     * threshold and at most half as fast: every slot of that holder is
     * freed, each of its requests for the piece puts its block back on the
     * piece's cancellation stack, and `hotswap` is emitted.
     */
    method OnHotswap(wire: Wire, index: nat) returns (ok: bool)
      requires Valid()
      modifies this`reservations, this`events, if Live(index) then {pieces[index]} else {}
      ensures Valid()
      ensures ok <==> hotswapEnabled && wire.downSpeed >= BLOCK_SIZE && old(Live(index))
                      && VictimIn(old(reservations[index].value), wire, wire.downSpeed).Some?
      ensures !ok ==> reservations == old(reservations) && events == old(events)
      ensures !ok && Live(index) ==> unchanged(pieces[index])
      ensures ok ==>
                var r := old(reservations[index].value);
                var victim := r[VictimIn(r, wire, wire.downSpeed).value];
                && victim != null && victim != wire
                && reservations == old(reservations)[index := Some(Evict(r, victim))]
                && events == old(events) + [Hotswap(victim.address, wire.address, index)]
                && pieces[index].cancellations
                   == old(pieces[index].cancellations)
                      + (if old(pieces[index].flushed) then [] else BlocksOf(victim.requests, index))
                && pieces[index].flushed == old(pieces[index].flushed)
                && pieces[index].sources == old(pieces[index].sources)
                && pieces[index].missing == old(pieces[index].missing)
                && pieces[index].reservations == old(pieces[index].reservations)
    {
      if !hotswapEnabled {
        return false;
      }
      var speed := wire.downSpeed;
      if speed < BLOCK_SIZE || !Live(index) {
        return false;
      }
      var r := reservations[index].value;
      var min := FindVictim(r, wire, speed);
      if min.None? {
        return false;
      }
      var victim: Wire := r[min.value];
      SwapOut(wire, index, victim);
      return true;
    }

    /** The eviction itself: `victim`'s slots freed, its blocks cancelled, `hotswap` emitted. */
    method SwapOut(wire: Wire, index: nat, victim: Wire)
      requires Valid() && Live(index) && victim in reservations[index].value
      modifies this`reservations, this`events, pieces[index]
      ensures Valid()
      ensures reservations == old(reservations)[index := Some(Evict(old(reservations[index].value), victim))]
      ensures events == old(events) + [Hotswap(victim.address, wire.address, index)]
      ensures pieces[index].cancellations
              == old(pieces[index].cancellations)
                 + (if old(pieces[index].flushed) then [] else BlocksOf(victim.requests, index))
      ensures pieces[index].flushed == old(pieces[index].flushed)
      ensures pieces[index].sources == old(pieces[index].sources)
      ensures pieces[index].missing == old(pieces[index].missing)
      ensures pieces[index].reservations == old(pieces[index].reservations)
    {
      var r := reservations[index].value;
      var r' := EvictAll(r, victim);
      SetReservations(index, r');
      CancelBlocksOf(victim, index);
      events := events + [Hotswap(victim.address, wire.address, index)];
    }

    /** A live piece's reservation list is replaced by one whose holders all held a slot before. */
    method SetReservations(index: nat, r': seq<Wire?>)
      requires Valid() && Live(index)
      requires forall o :: o in r' && o != null ==> o in reservations[index].value
      modifies this`reservations
      ensures Valid()
      ensures reservations == old(reservations)[index := Some(r')]
    {
      reservations := reservations[index := Some(r')];
    }

    /** `pieces[index].cancel((req.offset / BLOCK_SIZE) | 0)` for each of `victim`'s requests for the piece. */
    method CancelBlocksOf(victim: Wire, index: nat)
      requires Valid() && victim in wires && Live(index)
      modifies pieces[index]
      ensures Valid()
      ensures pieces[index].cancellations
              == old(pieces[index].cancellations)
                 + (if old(pieces[index].flushed) then [] else BlocksOf(victim.requests, index))
      ensures pieces[index].flushed == old(pieces[index].flushed)
      ensures pieces[index].sources == old(pieces[index].sources)
      ensures pieces[index].missing == old(pieces[index].missing)
      ensures pieces[index].reservations == old(pieces[index].reservations)
    {
      var p := pieces[index];
      assert RequestsOk(victim);
      CancelRequests(p, victim.requests, index);
      assert version == TorrentClient ==> SourcesIn(p, wires);
    }
  
    /**
     * `onrequest(wire, index, hotswap)`: reserve a block of a live piece
     * (after one hotswap attempt when none is left and `hotswap` is set),
     * enter `wire` in the first free slot of the piece's reservation list
     * and send the block request; false when the piece is complete or no
     * block could be reserved.
     */
    method OnRequest(wire: Wire, index: int, hotswap: bool) returns (ok: bool)
      requires Valid() && wire in wires
      modifies this`reservations, this`events, wire`requests, wire`sent
      modifies if Live(index) then {pieces[index]} else {}
      ensures Valid()
      ensures !old(Live(index)) ==> !ok && reservations == old(reservations) && events == old(events)
      ensures !hotswap ==> (ok <==> old(Live(index)) && old(pieces[index].CanReserve()))
      ensures old(Live(index)) && old(pieces[index].CanReserve()) ==>
                ok && events == old(events)
                && reservations == old(reservations)[index := Some(Enlist(old(reservations[index].value), wire))]
      ensures !ok ==> wire.requests == old(wire.requests) && wire.sent == old(wire.sent)
      ensures !hotswap ==> events == old(events)
      ensures !hotswap && !ok ==> reservations == old(reservations)
      ensures !hotswap && !ok ==> ReservableSet() == old(ReservableSet())
      ensures ok ==>
                var n := |old(wire.requests)|;
                && |wire.requests| == n + 1 && wire.requests[..n] == old(wire.requests)
                && var q := wire.requests[n];
                && q.piece == index && Live(index) && q.buf == pieces[index]
                && q.reservation < pieces[index].parts
                && q.offset == BlockOffset(q.reservation)
                && q.length == BlockLength(pieces[index].length, q.reservation)
                && q.slot < |reservations[index].value| && reservations[index].value[q.slot] == wire
                && wire.sent == old(wire.sent) + [RequestBlock(index, q.offset, q.length)]
    {
      if !Live(index) {
        return false;
      }
      var res := Obtain(wire, index, hotswap);
      if res == -1 {
        return false;
      }
      Issue(wire, index, res);
      return true;
    }

    /** `p.reserve()`, and with `hotswap` a second `reserve()` after a successful hotswap. */
    method Obtain(wire: Wire, index: nat, hotswap: bool) returns (res: int)
      requires Valid() && wire in wires && Live(index)
      modifies this`reservations, this`events, pieces[index]
      ensures Valid()
      ensures res == -1 || 0 <= res < pieces[index].parts
      ensures !hotswap ==> (res != -1 <==> old(pieces[index].CanReserve())) && events == old(events) && reservations == old(reservations)
      ensures !hotswap && res == -1 ==> ReservableSet() == old(ReservableSet())
      ensures old(pieces[index].CanReserve()) ==> res != -1 && events == old(events) && reservations == old(reservations)
    {
      res := ReserveBlock(index);
      if res == -1 && hotswap {
        var swapped := OnHotswap(wire, index);
        if swapped {
          res := ReserveBlock(index);
        }
      }
    }

    /** `p.reserve()` on a live piece. */
    method ReserveBlock(index: nat) returns (res: int)
      requires Valid() && Live(index)
      modifies pieces[index]
      ensures Valid()
      ensures res == -1 <==> !old(pieces[index].CanReserve())
      ensures res != -1 ==> 0 <= res < pieces[index].parts
      ensures res == -1 ==> ReservableSet() == old(ReservableSet())
    {
      var p := pieces[index];
      res := p.Reserve();
      assert version == TorrentClient ==> SourcesIn(p, wires);
      if res == -1 {
        forall k | 0 <= k < |pieces|
          ensures Reservable(k) == old(Reservable(k))
        {
          if k != index && pieces[k] != null {
            assert pieces[k] != p;
          }
        }
        assert ReservableSet() == old(ReservableSet());
      }
    }

    /** `r[r.indexOf(null)] = wire` and `wire.request(index, offset, size, cb)` for block `res`. */
    method Issue(wire: Wire, index: nat, res: nat)
      requires Valid() && wire in wires && Live(index) && res < pieces[index].parts
      modifies this`reservations, wire`requests, wire`sent
      ensures Valid()
      ensures reservations == old(reservations)[index := Some(Enlist(old(reservations[index].value), wire))]
      ensures var q := Request(index, BlockOffset(res), BlockLength(pieces[index].length, res), pieces[index],
                               FirstFree(old(reservations[index].value)), res);
              && wire.requests == old(wire.requests) + [q]
              && wire.sent == old(wire.sent) + [RequestBlock(index, q.offset, q.length)]
    {
      var p := pieces[index];
      var r := reservations[index].value;
      var i := FirstFree(r);
      EnlistPlacement(r, wire);
      reservations := reservations[index := Some(Enlist(r, wire))];
      var size := p.Size(res);
      wire.SendRequest(Request(index, BlockOffset(res), size, p, i, res));
    }
  
    /**
     * `select(wire, hotswap)`: walk the selection in order and, inside each
     * range, its pieces from the cursor on; every piece the peer has and
     * the speed ranker admits gets requests until the wire has
     * `MAX_REQUESTS` outstanding or a request fails. True once the wire is
     * full. In torrent-client.js a full wire served by a prioritised range
     * moves that range to the end of its run of prioritised ranges.
     */
    method Select(wire: Wire, hotswap: bool) returns (full: bool)
      requires Valid() && wire in wires
      modifies this`reservations, this`events, this`selection, wire`requests, wire`sent, Buffers()
      ensures Valid()
      ensures full <==> |wire.requests| >= MAX_REQUESTS
      ensures |old(wire.requests)| >= MAX_REQUESTS ==> wire.requests == old(wire.requests) && selection == old(selection)
      ensures |old(wire.requests)| < MAX_REQUESTS ==> |wire.requests| <= MAX_REQUESTS
      ensures |old(wire.requests)| <= |wire.requests| && wire.requests[..|old(wire.requests)|] == old(wire.requests)
      ensures forall k :: |old(wire.requests)| <= k < |wire.requests| ==>
                wire.requests[k].piece in wire.peerPieces && InWindow(old(selection), wire.requests[k].piece)
      ensures version != TorrentClient ==> selection == old(selection)
      ensures multiset(selection) == multiset(old(selection))
      ensures version == TorrentClient && selection != old(selection) ==>
                exists i :: 0 <= i < |old(selection)| && old(selection)[i].priority != 0 && selection == Shuffle(old(selection), i)
    {
      if |wire.requests| >= MAX_REQUESTS {
        return true;
      }
      ghost var reqs0 := wire.requests;
      var rk := NewRanker(wire.downSpeed);
      var i := 0;
      while i < |selection|
        invariant 0 <= i <= |selection| && selection == old(selection)
        invariant Valid() && |wire.requests| < MAX_REQUESTS && Grown(reqs0, wire.requests)
        invariant forall k :: |reqs0| <= k < |wire.requests| ==>
                    wire.requests[k].piece in wire.peerPieces && InWindow(selection, wire.requests[k].piece)
      {
        ghost var s0 := selection;
        ghost var before := wire.requests;
        full, rk := SelectFrom(wire, i, hotswap, rk);
        GrownTrans(reqs0, before, wire.requests);
        forall k | |reqs0| <= k < |wire.requests|
          ensures wire.requests[k].piece in wire.peerPieces && InWindow(s0, wire.requests[k].piece)
        {
          if k < |before| {
            assert wire.requests[k] == wire.requests[..|before|][k];
          } else {
            assert Covers(s0[i], wire.requests[k].piece);
          }
        }
        if full {
          return;
        }
        i := i + 1;
      }
      return false;
    }

    /**
     * The inner loop of `select` for range `i`: its pieces from the cursor
     * to `to`, each tried in turn, until the wire is full. In
     * torrent-client.js a full wire served by a prioritised range moves
     * that range to the end of its run of prioritised ranges.
     */
    method SelectFrom(wire: Wire, i: nat, hotswap: bool, rk: Ranker) returns (full: bool, rk': Ranker)
      requires Valid() && wire in wires && |wire.requests| < MAX_REQUESTS && i < |selection|
      modifies this`reservations, this`events, this`selection, wire`requests, wire`sent, Buffers()
      ensures Valid()
      ensures full <==> |wire.requests| >= MAX_REQUESTS
      ensures |wire.requests| <= MAX_REQUESTS && Grown(old(wire.requests), wire.requests)
      ensures forall k :: |old(wire.requests)| <= k < |wire.requests| ==>
                wire.requests[k].piece in wire.peerPieces && Covers(old(selection)[i], wire.requests[k].piece)
      ensures !full ==> selection == old(selection)
      ensures selection == old(selection)
              || (version == TorrentClient && old(selection)[i].priority != 0 && selection == Shuffle(old(selection), i))
      ensures multiset(selection) == multiset(old(selection))
    {
      rk' := rk;
      var next := selection[i];
      var j := next.from + next.offset;
      while j <= next.to
        invariant selection == old(selection) && next == selection[i]
        invariant Valid() && |wire.requests| < MAX_REQUESTS && Grown(old(wire.requests), wire.requests)
        invariant forall k :: |old(wire.requests)| <= k < |wire.requests| ==>
                    wire.requests[k].piece in wire.peerPieces && Covers(next, wire.requests[k].piece)
        decreases next.to - j
      {
        ghost var before := wire.requests;
        rk' := TryPiece(wire, j, hotswap, rk');
        assert wire.requests[..|before|] == before;
        assert forall k :: |old(wire.requests)| <= k < |before| ==> wire.requests[k] == before[k];
        assert wire.requests[..|old(wire.requests)|] == before[..|old(wire.requests)|];
        if |wire.requests| >= MAX_REQUESTS {
          if version == TorrentClient && next.priority != 0 {
            Rotate(i);
          }
          return true, rk';
        }
        j := j + 1;
      }
      return false, rk';
    }

    /**
     * One piece of `select`: skipped unless the peer has it and the ranker
     * admits it; then `while (requests < MAX_REQUESTS && onrequest(...))`,
     * with hotswap allowed for critical pieces.
     */
    method TryPiece(wire: Wire, j: int, hotswap: bool, rk: Ranker) returns (rk': Ranker)
      requires Valid() && wire in wires && |wire.requests| < MAX_REQUESTS
      modifies this`reservations, this`events, wire`requests, wire`sent, Buffers()
      ensures Valid()
      ensures |wire.requests| <= MAX_REQUESTS && Extends(wire.requests, old(wire.requests), j)
      ensures j !in wire.peerPieces ==> rk' == rk && wire.requests == old(wire.requests)
      ensures j in wire.peerPieces ==>
                var v := Rank(version, rk, old(Live(j)), old(if Live(j) then pieces[j].missing else 0), old(OthersOf(wires, j)));
                rk' == v.1 && (!v.0 ==> wire.requests == old(wire.requests))
    {
      if j !in wire.peerPieces {
        return rk;
      }
      var v := Rank(version, rk, Live(j), if Live(j) then pieces[j].missing else 0, OthersOf(wires, j));
      rk' := v.1;
      if !v.0 {
        return;
      }
      FillWith(wire, j, j in critical || hotswap);
    }

    /** `while (wire.requests.length < MAX_REQUESTS && onrequest(wire, j, hotswap));` */
    method FillWith(wire: Wire, j: int, hotswap: bool)
      requires Valid() && wire in wires && |wire.requests| < MAX_REQUESTS
      modifies this`reservations, this`events, wire`requests, wire`sent, Buffers()
      ensures Valid()
      ensures |wire.requests| <= MAX_REQUESTS && Extends(wire.requests, old(wire.requests), j)
    {
      var more := true;
      while more && |wire.requests| < MAX_REQUESTS
        invariant Valid()
        invariant |wire.requests| <= MAX_REQUESTS && Extends(wire.requests, old(wire.requests), j)
        decreases MAX_REQUESTS - |wire.requests|, more
      {
        assert Live(j) ==> pieces[j] in Buffers();
        ghost var before := wire.requests;
        more := OnRequest(wire, j, hotswap);
        if more {
          ExtendsStep(old(wire.requests), before, wire.requests, j);
        }
      }
    }

    /** `shufflePriority(i)` as `select` uses it: a permutation of the selection. */
    method Rotate(i: nat)
      requires i < |selection| && selection[i].priority != 0
      modifies this`selection
      ensures selection == Shuffle(old(selection), i) && multiset(selection) == multiset(old(selection))
    {
      ShuffleMovesToRunEnd(selection, i);
      ShufflePriority(i);
    }

    /** `shufflePriority(i)`: swap range `i` with the last range of its run of prioritised ranges. */
    method ShufflePriority(i: nat)
      requires i < |selection|
      modifies this`selection
      ensures selection == Shuffle(old(selection), i)
    {
      var last := i;
      var j := i;
      while j < |selection| && selection[j].priority != 0
        invariant i <= last < |selection| && i <= j
        invariant (j == i && last == i) || j == last + 1
        invariant RunEnd(selection, i, j, last) == RunEnd(selection, i, i, i)
        decreases |selection| - j
      {
        last := j;
        j := j + 1;
      }
      var tmp := selection[i];
      selection := selection[i := selection[last]][last := tmp];
    }

    /**
     * `onvalidatewire(wire)`: a wire that has not delivered anything yet
     * and has no request outstanding gets a single request, for the first
     * piece it has found walking the selection backwards and each range
     * from its end down to its cursor. Never hotswaps.
     */
    method OnValidateWire(wire: Wire)
      requires Valid() && wire in wires
      modifies this`reservations, this`events, wire`requests, wire`sent, Buffers()
      ensures Valid() && events == old(events)
      ensures Validated(old(wire.requests), wire.requests, old(ValidateTarget(wire)))
      ensures |old(wire.requests)| > 0 ==> reservations == old(reservations)
      ensures |old(wire.requests)| == 0 && old(ValidateTarget(wire)).None? ==> reservations == old(reservations)
      ensures |wire.requests| == 1 && |old(wire.requests)| == 0 ==>
                wire.requests[0].piece in wire.peerPieces && InWindow(selection, wire.requests[0].piece)
    {
      if |wire.requests| > 0 {
        return;
      }
      ghost var ok := wire.peerPieces * ReservableSet();
      ghost var target := ValidateScan(selection, ok);
      var i := |selection| - 1;
      assert selection[..i + 1] == selection;
      while i >= 0
        invariant -1 <= i < |selection|
        invariant Valid() && wire.requests == [] && events == old(events) && reservations == old(reservations)
        invariant wire.peerPieces * ReservableSet() == ok
        invariant ValidateScan(selection[..i + 1], ok) == target
      {
        assert selection[..i + 1][..i] == selection[..i];
        var granted := ValidateRange(wire, i, ok);
        if granted {
          assert Covers(selection[i], wire.requests[0].piece);
          return;
        }
        i := i - 1;
      }
    }

    /** The inner loop of `onvalidatewire` over range `i`: its window from `to` down to the cursor. */
    method ValidateRange(wire: Wire, i: nat, ghost ok: set<int>) returns (granted: bool)
      requires Valid() && wire in wires && wire.requests == [] && i < |selection|
      requires wire.peerPieces * ReservableSet() == ok
      modifies this`reservations, this`events, wire`requests, wire`sent, Buffers()
      ensures Valid() && events == old(events)
      ensures var r := selection[i];
              var found := ScanDown(r.from + r.offset, r.to, ok);
              && (!granted ==> found.None? && wire.requests == [] && reservations == old(reservations)
                               && wire.peerPieces * ReservableSet() == ok)
              && (granted ==> |wire.requests| == 1 && found == Some(wire.requests[0].piece)
                              && wire.requests[0].piece in wire.peerPieces && Covers(r, wire.requests[0].piece))
    {
      var next := selection[i];
      var lo := next.from + next.offset;
      var j := next.to;
      while j >= lo
        invariant Valid() && wire.requests == [] && events == old(events) && reservations == old(reservations)
        invariant wire.peerPieces * ReservableSet() == ok
        invariant ScanDown(lo, next.to, ok) == ScanDown(lo, j, ok)
        decreases j - lo
      {
        if j in wire.peerPieces {
          assert Live(j) ==> pieces[j] in Buffers();
          assert j in ok <==> Reservable(j);
          granted := OnRequest(wire, j, false);
          if granted {
            return;
          }
        }
        j := j - 1;
      }
      return false;
    }

    /**
     * `onupdatewire(wire)`: nothing for a wire that chokes us; a wire that
     * has delivered nothing yet is validated; any other is filled by
     * `select` without hotswap and, if still not full, with hotswap.
     */
    method OnUpdateWire(wire: Wire)
      requires Valid() && wire in wires
      modifies this`reservations, this`events, this`selection, wire`requests, wire`sent, Buffers()
      ensures Valid()
      ensures wire.peerChoking ==> wire.requests == old(wire.requests) && reservations == old(reservations)
      ensures |old(wire.requests)| <= |wire.requests| && wire.requests[..|old(wire.requests)|] == old(wire.requests)
      ensures |old(wire.requests)| < MAX_REQUESTS ==> |wire.requests| <= MAX_REQUESTS
      ensures forall k :: |old(wire.requests)| <= k < |wire.requests| ==> wire.requests[k].piece in wire.peerPieces
      ensures !wire.peerChoking && wire.downloaded == 0 ==> events == old(events) && selection == old(selection)
      ensures !wire.peerChoking && wire.downloaded == 0 ==>
                Validated(old(wire.requests), wire.requests, old(ValidateTarget(wire)))
      ensures version != TorrentClient ==> selection == old(selection)
      ensures multiset(selection) == multiset(old(selection))
    {
      if wire.peerChoking {
        return;
      }
      if wire.downloaded == 0 {
        OnValidateWire(wire);
        return;
      }
      var full := Select(wire, false);
      if !full {
        ghost var mid := wire.requests;
        full := Select(wire, true);
        assert wire.requests[..|mid|] == mid;
        assert wire.requests[..|old(wire.requests)|] == mid[..|old(wire.requests)|];
      }
    }

    /** `onupdate`: `onupdatewire` for every connected wire, in order. */
    method OnUpdate()
      requires Valid()
      modifies this`reservations, this`events, this`selection, wires`requests, wires`sent, Buffers()
      ensures Valid()
      ensures forall w :: w in wires ==> Grown(old(w.requests), w.requests)
      ensures forall w :: w in wires && w.peerChoking ==> w.requests == old(w.requests)
      ensures forall w :: w in wires && |old(w.requests)| < MAX_REQUESTS ==> |w.requests| <= MAX_REQUESTS
      ensures version != TorrentClient ==> selection == old(selection)
      ensures multiset(selection) == multiset(old(selection))
    {
      var k := 0;
      while k < |wires|
        invariant 0 <= k <= |wires| && Valid()
        invariant forall w :: w in wires ==> Grown(old(w.requests), w.requests)
        invariant forall w :: w in wires && w.peerChoking ==> w.requests == old(w.requests)
        invariant forall w :: w in wires && |old(w.requests)| < MAX_REQUESTS ==> |w.requests| <= MAX_REQUESTS
        invariant forall w :: w in wires[k..] ==> w.requests == old(w.requests)
        invariant version != TorrentClient ==> selection == old(selection)
        invariant multiset(selection) == multiset(old(selection))
      {
        OnUpdateWire(wires[k]);
        k := k + 1;
      }
    }

    /**
     * The callback of the request `wire.requests[qi]`, answered with an
     * error or with `block`, at time `now` (the request leaves the wire's
     * list first). The reservation slot is freed if the wire still holds
     * it. A block for a piece that has since completed or been replaced
     * only schedules an update. An error puts the block back for reserving.
     * A stored block that completes the piece is flushed and checked: a
     * match completes the piece; a mismatch emits `invalid-piece` and
     * starts the piece afresh, striking every source in
     * torrent-client.js. In lib/TorrentStream.js the fresh piece is made
     * by `t.piece(...)`, which does not exist: the callback throws, and the
     * flushed buffer stays in the table.
     */
    method OnBlock(wire: Wire, qi: nat, err: bool, block: Bytes, now: int) returns (outcome: Outcome)
      requires Valid() && wire in wires && qi < |wire.requests|
      modifies this`reservations, this`pieces, this`events, this`pendingUpdate, this`bitfield, this`written
      modifies this`selection, this`amInterested, wire`requests, Buffers(), wires`badPieceStrikes
      ensures Valid()
      ensures wire.requests == old(wire.requests[..qi] + wire.requests[qi + 1..])
      ensures var q := old(wire.requests[qi]);
              && (outcome.Stale? <==> !old(Live(q.piece)) || old(pieces[q.piece]) != q.buf)
              && (outcome.Failed? <==> !outcome.Stale? && err)
              && (outcome.Stale? || outcome.Failed? || outcome.Stored? ==>
                    pieces == old(pieces) && events == old(events) && bitfield == old(bitfield))
              && (outcome.Failed? ==>
                    q.buf.cancellations == old(q.buf.cancellations) + (if old(q.buf.flushed) then [] else [q.reservation]))
              && Resolved(outcome, q.piece, q.buf, old(pieces), old(events), old(bitfield), old(written))
              && (outcome.Corrupt? && version == TorrentClient ==>
                    forall s :: s in outcome.sources ==> s == wire || s in old(q.buf.sources))
      ensures forall w :: w in wires ==>
                w.badPieceStrikes == if outcome.Corrupt? && version == TorrentClient && w in outcome.sources
                                     then Struck(old(w.badPieceStrikes), now) else old(w.badPieceStrikes)
      ensures pendingUpdate == (old(pendingUpdate) || !(outcome.Corrupt? && version == TorrentStream))
    {
      var q := wire.requests[qi];
      assert RequestsOk(wire);
      DropRequest(wire, qi);
      ClearSlot(q.piece, q.slot, wire);
      outcome := Respond(wire, q, err, block, now);
    }

    /** The callback of request `q` once the request is off the wire and out of its slot. */
    method Respond(wire: Wire, q: Request, err: bool, block: Bytes, now: int) returns (outcome: Outcome)
      requires Valid() && wire in wires && q.piece < pieceCount
      requires q.reservation < Parts(PieceLen(q.piece))
      modifies this`reservations, this`pieces, this`events, this`pendingUpdate, this`bitfield, this`written
      modifies this`selection, this`amInterested, Buffers(), wires`badPieceStrikes
      ensures Valid()
      ensures && (outcome.Stale? <==> !old(Live(q.piece)) || old(pieces[q.piece]) != q.buf)
              && (outcome.Failed? <==> !outcome.Stale? && err)
              && (outcome.Stale? || outcome.Failed? || outcome.Stored? ==>
                    pieces == old(pieces) && events == old(events) && bitfield == old(bitfield))
              && (outcome.Failed? ==>
                    q.buf.cancellations == old(q.buf.cancellations) + (if old(q.buf.flushed) then [] else [q.reservation]))
              && Resolved(outcome, q.piece, q.buf, old(pieces), old(events), old(bitfield), old(written))
              && (outcome.Corrupt? && version == TorrentClient ==>
                    forall s :: s in outcome.sources ==> s == wire || s in old(q.buf.sources))
      ensures forall w :: w in wires ==>
                w.badPieceStrikes == if outcome.Corrupt? && version == TorrentClient && w in outcome.sources
                                     then Struck(old(w.badPieceStrikes), now) else old(w.badPieceStrikes)
      ensures pendingUpdate == (old(pendingUpdate) || !(outcome.Corrupt? && version == TorrentStream))
    {
      var index := q.piece;
      if !Live(index) || pieces[index] != q.buf {
        pendingUpdate := true;
        return Stale;
      }
      if err {
        CancelBlock(index, q.reservation);
        pendingUpdate := true;
        return Failed;
      }
      outcome := Accept(wire, index, q.reservation, block, now);
    }

    /**
     * How an assembled piece was resolved, relative to the table, log,
     * bitfield and writes before the callback: a match completes it; a
     * mismatch leaves the bitfield alone and either starts the piece afresh
     * with an `invalid-piece` event or, in lib/TorrentStream.js, leaves the
     * flushed buffer that no block can be reserved from any more.
     */
    ghost predicate Resolved(outcome: Outcome, index: nat, buf: PieceBuffer<Wire?>, pieces0: seq<PieceBuffer?<Wire?>>,
                             events0: seq<Event>, bitfield0: set<nat>, written0: seq<(nat, Bytes)>)
      reads this, buf, if index < |pieces| && pieces[index] != null then {pieces[index]} else {}
      reads if outcome.Corrupt? then outcome.sources else []
    {
      && (outcome.Completed? ==>
            && index < |digests| && sha1(outcome.data) == digests[index] && |outcome.data| == buf.length
            && index < |pieces0| && pieces == pieces0[index := null] && bitfield == bitfield0 + {index}
            && written == written0 + [(index, outcome.data)])
      && (outcome.Corrupt? ==>
            && index < |digests| && sha1(outcome.data) != digests[index] && |outcome.data| == buf.length
            && bitfield == bitfield0 && written == written0)
      && (outcome.Corrupt? && version != TorrentStream ==>
            && index < |pieces0| && index < |pieces| && pieces[index] != null
            && pieces == pieces0[index := pieces[index]]
            && pieces[index].length == buf.length && pieces[index].missing == buf.length
            && pieces[index].CanReserve() == (buf.length > 0))
      && (outcome.Corrupt? && version == TorrentStream ==>
            && pieces == pieces0 && buf.flushed && !buf.CanReserve()
            && events == events0 + [PieceIsNotAFunction(index)])
      && (outcome.Corrupt? && version == TorrentClient ==>
            events == events0 + [InvalidPiece(index, outcome.data)] + BlockLog(outcome.sources))
      && (outcome.Corrupt? && version == EngineJs ==>
            events == events0 + [InvalidPiece(index, outcome.data)])
    }

    /** A block for the current buffer of a live piece: `p.set`, then, if the piece is whole, the check. */
    method Accept(wire: Wire, index: nat, res: nat, block: Bytes, now: int) returns (outcome: Outcome)
      requires Valid() && wire in wires && Live(index) && res < pieces[index].parts
      modifies this`reservations, this`pieces, this`events, this`pendingUpdate, this`bitfield, this`written
      modifies this`selection, this`amInterested, Buffers(), wires`badPieceStrikes
      ensures Valid()
      ensures outcome.Stored? || outcome.Corrupt? || outcome.Completed?
      ensures outcome.Stored? ==> pieces == old(pieces) && events == old(events) && bitfield == old(bitfield)
      ensures Resolved(outcome, index, old(pieces[index]), old(pieces), old(events), old(bitfield), old(written))
      ensures outcome.Corrupt? && version == TorrentClient ==>
                forall s :: s in outcome.sources ==> s == wire || s in old(pieces[index].sources)
      ensures forall w :: w in wires ==>
                w.badPieceStrikes == if outcome.Corrupt? && version == TorrentClient && w in outcome.sources
                                     then Struck(old(w.badPieceStrikes), now) else old(w.badPieceStrikes)
      ensures pendingUpdate == (old(pendingUpdate) || !(outcome.Corrupt? && version == TorrentStream))
    {
      var full := StoreBlock(index, res, block, if version == TorrentClient then wire else null);
      if !full {
        pendingUpdate := true;
        return Stored;
      }
      var data, sources := FlushPiece(index);
      outcome := Conclude(index, data, sources, now);
    }

    /** `sha1(buffer) !== torrent.pieces[index]` decides between completion and a fresh start. */
    method Conclude(index: nat, data: Bytes, sources: seq<Wire?>, now: int) returns (outcome: Outcome)
      requires Valid() && Live(index) && pieces[index].flushed && |data| == pieces[index].length
      requires forall a, b :: 0 <= a < b < |sources| ==> sources[a] != sources[b]
      requires version == TorrentClient ==> forall i :: 0 <= i < |sources| ==> sources[i] != null && sources[i] in wires
      modifies this`reservations, this`pieces, this`events, this`pendingUpdate, this`bitfield, this`written
      modifies this`selection, this`amInterested, wires`badPieceStrikes
      ensures Valid()
      ensures outcome.Corrupt? || outcome.Completed?
      ensures outcome.Corrupt? ==> outcome.data == data && outcome.sources == sources
      ensures outcome.Completed? ==> outcome.data == data
      ensures Resolved(outcome, index, old(pieces[index]), old(pieces), old(events), old(bitfield), old(written))
      ensures forall w :: w in wires ==>
                w.badPieceStrikes == if outcome.Corrupt? && version == TorrentClient && w in sources
                                     then Struck(old(w.badPieceStrikes), now) else old(w.badPieceStrikes)
      ensures pendingUpdate == (old(pendingUpdate) || !(outcome.Corrupt? && version == TorrentStream))
    {
      if sha1(data) != digests[index] {
        outcome := Corrupt(data, sources);
        Reject(index, data, sources, now);
        return;
      }
      Complete(index, data);
      return Completed(data);
    }

    /** A piece that passed its check: `onpiececomplete`, then an update scheduled. */
    method Complete(index: nat, data: Bytes)
      requires Valid() && Live(index) && |data| == pieces[index].length
      requires index < |digests| && sha1(data) == digests[index]
      modifies this`reservations, this`pieces, this`events, this`pendingUpdate, this`bitfield, this`written
      modifies this`selection, this`amInterested
      ensures Valid() && pendingUpdate
      ensures Resolved(Completed(data), index, old(pieces[index]), old(pieces), old(events), old(bitfield), old(written))
    {
      OnPieceComplete(index, data);
      pendingUpdate := true;
    }

    /**
     * A piece that failed its check: `pieces[index] = piece(p.length)`, the
     * `invalid-piece` event and the strikes; lib/TorrentStream.js throws
     * at `t.piece` instead.
     */
    method Reject(index: nat, data: Bytes, sources: seq<Wire?>, now: int)
      requires Valid() && Live(index) && pieces[index].flushed && |data| == pieces[index].length
      requires index < |digests| && sha1(data) != digests[index]
      requires forall a, b :: 0 <= a < b < |sources| ==> sources[a] != sources[b]
      requires version == TorrentClient ==> forall i :: 0 <= i < |sources| ==> sources[i] != null && sources[i] in wires
      modifies this`pieces, this`events, this`pendingUpdate, wires`badPieceStrikes
      ensures Valid()
      ensures Resolved(Corrupt(data, sources), index, old(pieces[index]), old(pieces), old(events), bitfield, written)
      ensures forall w :: w in wires ==>
                w.badPieceStrikes == if version == TorrentClient && w in sources
                                     then Struck(old(w.badPieceStrikes), now) else old(w.badPieceStrikes)
      ensures pendingUpdate == (old(pendingUpdate) || version != TorrentStream)
    {
      if version == TorrentStream {
        events := events + [PieceIsNotAFunction(index)];
        return;
      }
      Renew(index, data, sources, now);
    }

    /** The piece starts afresh; lib/torrent-client.js also strikes its sources. */
    method Renew(index: nat, data: Bytes, sources: seq<Wire?>, now: int)
      requires Valid() && Live(index) && version != TorrentStream
      requires forall a, b :: 0 <= a < b < |sources| ==> sources[a] != sources[b]
      requires version == TorrentClient ==> forall i :: 0 <= i < |sources| ==> sources[i] != null && sources[i] in wires
      modifies this`pieces, this`events, this`pendingUpdate, wires`badPieceStrikes
      ensures Valid() && pendingUpdate
      ensures pieces[index] != null && fresh(pieces[index]) && pieces == old(pieces)[index := pieces[index]]
      ensures pieces[index].length == old(pieces[index].length) && pieces[index].missing == pieces[index].length
      ensures pieces[index].CanReserve() == (pieces[index].length > 0)
      ensures events == old(events) + [InvalidPiece(index, data)] + (if version == TorrentClient then BlockLog(sources) else [])
      ensures forall w :: w in wires ==>
                w.badPieceStrikes == if version == TorrentClient && w in sources
                                     then Struck(old(w.badPieceStrikes), now) else old(w.badPieceStrikes)
    {
      Restart(index, data);
      Penalize(sources, now);
    }

    /** lib/torrent-client.js strikes every source of the corrupt piece and blocks the ones over the limit. */
    method Penalize(sources: seq<Wire?>, now: int)
      requires forall a, b :: 0 <= a < b < |sources| ==> sources[a] != sources[b]
      requires version == TorrentClient ==> forall i :: 0 <= i < |sources| ==> sources[i] != null && sources[i] in wires
      modifies this`events, wires`badPieceStrikes
      ensures events == old(events) + (if version == TorrentClient then BlockLog(sources) else [])
      ensures forall w :: w in wires ==>
                w.badPieceStrikes == if version == TorrentClient && w in sources
                                     then Struck(old(w.badPieceStrikes), now) else old(w.badPieceStrikes)
    {
      if version == TorrentClient {
        var blocked := StrikeSources(wires, sources, now);
        events := events + blocked;
      }
    }

    /** `pieces[index] = piece(p.length); emit('invalid-piece', index, buffer); onupdatetick()`. */
    method Restart(index: nat, data: Bytes)
      requires Valid() && Live(index)
      modifies this`pieces, this`events, this`pendingUpdate
      ensures Valid() && pendingUpdate
      ensures pieces[index] != null && fresh(pieces[index]) && pieces == old(pieces)[index := pieces[index]]
      ensures pieces[index].length == old(pieces[index].length) && pieces[index].missing == pieces[index].length
      ensures pieces[index].CanReserve() == (pieces[index].length > 0)
      ensures events == old(events) + [InvalidPiece(index, data)]
    {
      DiscardPiece(index);
      events := events + [InvalidPiece(index, data)];
      pendingUpdate := true;
    }

    /** The answered request leaves the wire's list. */
    method DropRequest(wire: Wire, qi: nat)
      requires Valid() && wire in wires && qi < |wire.requests|
      modifies wire`requests
      ensures Valid()
      ensures wire.requests == old(wire.requests[..qi] + wire.requests[qi + 1..])
    {
      assert RequestsOk(wire);
      var rest := wire.requests[..qi] + wire.requests[qi + 1..];
      assert forall q :: q in rest ==> q in wire.requests;
      wire.requests := rest;
    }

    /** `if (r[i] === wire) r[i] = null` on the list the request was entered in. */
    method ClearSlot(index: nat, slot: nat, wire: Wire)
      requires Valid() && index < pieceCount
      modifies this`reservations
      ensures Valid()
      ensures reservations ==
                if old(reservations[index]).Some? && slot < |old(reservations[index].value)|
                   && old(reservations[index].value[slot]) == wire
                then old(reservations)[index := Some(old(reservations[index].value)[slot := null])]
                else old(reservations)
    {
      if reservations[index].Some? {
        var r := reservations[index].value;
        if slot < |r| && r[slot] == wire {
          reservations := reservations[index := Some(r[slot := null])];
        }
      }
    }

    /** `p.cancel(reservation)` on a live piece. */
    method CancelBlock(index: nat, res: nat)
      requires Valid() && Live(index) && res < pieces[index].parts
      modifies pieces[index]
      ensures Valid()
      ensures pieces[index].cancellations
              == old(pieces[index].cancellations) + (if old(pieces[index].flushed) then [] else [res])
    {
      var p := pieces[index];
      p.Cancel(res);
      assert version == TorrentClient ==> SourcesIn(p, wires);
    }

    /** `p.set(reservation, block, source)` on a live piece; true once every block is stored. */
    method StoreBlock(index: nat, res: nat, block: Bytes, source: Wire?) returns (full: bool)
      requires Valid() && Live(index) && res < pieces[index].parts
      requires version == TorrentClient ==> source != null && source in wires
      modifies pieces[index]
      ensures Valid()
      ensures full <==> !pieces[index].flushed && pieces[index].buffered == pieces[index].parts
      ensures full ==> pieces[index].inited
      ensures forall s :: s in pieces[index].sources ==> s == source || s in old(pieces[index].sources)
    {
      var p := pieces[index];
      full := p.Set(res, block, source);
      assert version == TorrentClient ==> SourcesIn(p, wires);
    }

    /** `var sources = p.sources; var buffer = p.flush();` on a live piece whose blocks are all stored. */
    method FlushPiece(index: nat) returns (data: Bytes, sources: seq<Wire?>)
      requires Valid() && Live(index)
      requires pieces[index].inited && !pieces[index].flushed && pieces[index].buffered == pieces[index].parts
      modifies pieces[index]
      ensures Valid()
      ensures |data| == pieces[index].length && pieces[index].flushed && !pieces[index].CanReserve()
      ensures sources == old(pieces[index].sources)
      ensures forall a, b :: 0 <= a < b < |sources| ==> sources[a] != sources[b]
      ensures version == TorrentClient ==> forall i :: 0 <= i < |sources| ==> sources[i] != null && sources[i] in wires
    {
      var p := pieces[index];
      sources := p.sources;
      assert version == TorrentClient ==> SourcesIn(p, wires);
      assert forall i :: 0 <= i < |sources| ==> sources[i] in p.sources;
      var r := p.Flush();
      data := r.value;
    }

    /** `pieces[index] = piece(p.length)`: a piece that failed its check starts afresh. */
    method DiscardPiece(index: nat)
      requires Valid() && Live(index)
      modifies this`pieces
      ensures Valid()
      ensures pieces[index] != null && fresh(pieces[index]) && pieces == old(pieces)[index := pieces[index]]
      ensures pieces[index].length == old(pieces[index].length) && pieces[index].missing == pieces[index].length
      ensures pieces[index].CanReserve() == (pieces[index].length > 0)
    {
      var p := new PieceBuffer<Wire?>(pieces[index].length);
      assert p.parts == Parts(p.length);
      pieces := pieces[index := p];
      assert version == TorrentClient ==> SourcesIn(p, wires);
    }

    /**
     * What the verification pass decides for each piece, given what
     * `store.read` gave (`None` for no buffer): there are stored bytes and
     * their digest is the piece's.
     */
    function Passes(stored: seq<Option<Bytes>>): (r: seq<bool>)
      requires |stored| == pieceCount && |digests| == pieceCount
      ensures |r| == pieceCount
      ensures forall k :: 0 <= k < pieceCount ==> (r[k] <==> stored[k].Some? && sha1(stored[k].value) == digests[k])
    {
      seq(pieceCount, k requires 0 <= k < pieceCount => stored[k].Some? && sha1(stored[k].value) == digests[k])
    }

    /**
     * The verification loop (`that.verify` in engine.js, the start-up
     * `loop` of lib/torrent-client.js) over the pieces in index order:
     * every piece whose stored bytes pass and which is still live leaves
     * the table, its bit is set and `verify` is emitted. Reservation lists
     * stay as they are.
     */
    method VerifyPass(stored: seq<Option<Bytes>>)
      requires Valid() && |stored| == pieceCount
      modifies this`pieces, this`bitfield, this`events
      ensures Valid() && |pieces| == pieceCount
      ensures pieces == Nulled(old(pieces), Passes(stored), pieceCount)
      ensures bitfield == old(bitfield) + Claimed(Passes(stored), LiveOf(old(pieces)), pieceCount)
      ensures events == old(events) + VerifyLog(Passes(stored), LiveOf(old(pieces)), pieceCount)
    {
      var ps, claimed, log := VerifyScan(pieces, Passes(stored));
      pieces, bitfield, events := ps, bitfield + claimed, events + log;
    }

    /**
     * The whole verification run: the pass, then in engine.js a gc pass;
     * lib/torrent-client.js (`onready`) and lib/TorrentStream.js
     * (`_onReady`) instead mark the engine ready and refresh.
     */
    method VerifyAll(stored: seq<Option<Bytes>>)
      requires Valid() && |stored| == pieceCount
      modifies this`pieces, this`bitfield, this`events, this`selection, this`amInterested, this`pendingGc,
               this`ready, this`reservations, wires`requests, wires`sent, Buffers()
      ensures Valid()
      ensures pieces == Nulled(old(pieces), Passes(stored), pieceCount)
      ensures bitfield == old(bitfield) + Claimed(Passes(stored), LiveOf(old(pieces)), pieceCount)
      ensures version == EngineJs ==> selection == Keep(old(selection), LiveOf(pieces))
      ensures version != EngineJs ==>
                ready && pendingGc && amInterested == NextInterest(version, old(amInterested), |old(selection)| > 0)
    {
      VerifyPass(stored);
      VerifyDone();
    }

    /** What follows the verification loop: gc in engine.js, `onready`/`_onReady` elsewhere. */
    method VerifyDone()
      requires Valid()
      modifies this`events, this`selection, this`amInterested, this`pendingGc,
               this`ready, this`reservations, wires`requests, wires`sent, Buffers()
      ensures Valid()
      ensures version == EngineJs ==> selection == Keep(old(selection), LiveOf(pieces))
      ensures version != EngineJs ==>
                ready && pendingGc && amInterested == NextInterest(version, old(amInterested), |old(selection)| > 0)
    {
      if version == EngineJs {
        Gc();
      } else {
        ready := true;
        Refresh();
      }
    }

    /**
     * `refresh` (lib/torrent-client.js `onready`, the tail of engine.js's
     * `select`, lib/TorrentStream.js `_refresh`): gc is
     * scheduled, interest recomputed and every wire updated. In
     * lib/TorrentStream.js nothing happens before the engine is ready.
     */
    method Refresh()
      requires Valid()
      modifies this`pendingGc, this`amInterested, this`events, this`selection, this`reservations,
               wires`requests, wires`sent, Buffers()
      ensures Valid()
      ensures !ready ==> pendingGc == old(pendingGc) && amInterested == old(amInterested)
                         && events == old(events) && selection == old(selection)
      ensures ready ==> pendingGc && amInterested == NextInterest(version, old(amInterested), |old(selection)| > 0)
      ensures version != TorrentClient ==> selection == old(selection)
      ensures multiset(selection) == multiset(old(selection))
      ensures forall w :: w in wires ==> Grown(old(w.requests), w.requests)
      ensures forall w :: w in wires && w.peerChoking ==> w.requests == old(w.requests)
    {
      if !ready {
        return;
      }
      pendingGc := true;
      InterestChange();
      OnUpdate();
    }

    /**
     * `select(from, to, priority, notify)` on the engine: the range joins
     * the selection (cursor 0, normalised priority, descending order),
     * then a refresh.
     */
    method SelectRange(from: int, to: int, priority: PriorityArg, notify: nat)
      requires Valid()
      modifies this`pendingGc, this`amInterested, this`events, this`selection, this`reservations,
               wires`requests, wires`sent, Buffers()
      ensures Valid()
      ensures !ready ==> selection == Selection.Select(old(selection), from, to, priority, notify) && events == old(events)
      ensures ready ==> pendingGc && amInterested == NextInterest(version, old(amInterested), true)
      ensures version != TorrentClient ==> selection == Selection.Select(old(selection), from, to, priority, notify)
      ensures multiset(selection) == multiset(Selection.Select(old(selection), from, to, priority, notify))
    {
      selection := Selection.Select(selection, from, to, priority, notify);
      Refresh();
    }

    /**
     * `deselect(from, to, priority)` on the engine: the first range with
     * these bounds and normalised priority leaves the selection, then a
     * refresh. engine.js's `deselect` (unlike its `select`) schedules no
     * gc: it only recomputes interest and updates the wires.
     */
    method DeselectRange(from: int, to: int, priority: PriorityArg)
      requires Valid()
      modifies this`pendingGc, this`amInterested, this`events, this`selection, this`reservations,
               wires`requests, wires`sent, Buffers()
      ensures Valid()
      ensures version != EngineJs && !ready ==>
                selection == Deselect(old(selection), from, to, ToNumber(priority)) && events == old(events)
      ensures version == EngineJs ==> pendingGc == old(pendingGc)
      ensures version != EngineJs && ready ==> pendingGc
      ensures version == EngineJs || ready ==>
                amInterested == NextInterest(version, old(amInterested),
                                             |Deselect(old(selection), from, to, ToNumber(priority))| > 0)
      ensures version != TorrentClient ==> selection == Deselect(old(selection), from, to, ToNumber(priority))
      ensures multiset(selection) == multiset(Deselect(old(selection), from, to, ToNumber(priority)))
    {
      Unselect(from, to, ToNumber(priority));
      if version == EngineJs {
        InterestChange();
        OnUpdate();
      } else {
        Refresh();
      }
    }

    /** The search-and-splice loop of `deselect`. */
    method Unselect(from: int, to: int, priority: int)
      modifies this`selection
      ensures selection == Deselect(old(selection), from, to, priority)
    {
      DeselectRemovesFirstMatch(selection, from, to, priority);
      var i := 0;
      while i < |selection|
        invariant 0 <= i <= |selection| && selection == old(selection)
        invariant forall k :: 0 <= k < i ==> !Matches(selection[k], from, to, priority)
      {
        var s := selection[i];
        if s.from != from || s.to != to {
          i := i + 1;
          continue;
        }
        if s.priority != priority {
          i := i + 1;
          continue;
        }
        selection := selection[..i] + selection[i + 1..];
        break;
      }
    }
}
}

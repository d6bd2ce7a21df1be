/**
 * The speed-rank admission heuristic of the scheduler (`speedRanker`):
 * a slow wire is kept away from a piece that faster peers holding it
 * would finish anyway, at most ten times per ranking pass.
 *
 * Speeds are natural numbers of bytes per second. The source divides
 * (`secs = MAX_REQUESTS * BLOCK_SIZE / speed`); here every quantity of the
 * torrent-client.js comparison is multiplied by `speed`, which keeps it
 * exact in integers.
 */
module SpeedRank {
  import opened Piece
  import opened EngineEvents

  const MAX_REQUESTS: nat := 5
  const SPEED_THRESHOLD: nat := 3 * BLOCK_SIZE
  const TRIES: nat := 10

  /**
   * The closure `speedRanker(wire)` returns: either the admit-everything
   * function, or a ranking with the wire's speed and the shared counters
   * `tries` and `ptr`.
   */
  datatype Ranker = AdmitAll | Ranking(speed: nat, tries: nat, ptr: nat)

  /** `speedRanker(wire)`: the wire's speed (`|| 1`), and no ranking at all above the threshold. */
  function NewRanker(downSpeed: nat): (r: Ranker)
    ensures r == AdmitAll <==> downSpeed > SPEED_THRESHOLD
    ensures r.Ranking? ==> 1 <= r.speed <= SPEED_THRESHOLD && r.tries == TRIES && r.ptr == 0
    ensures r.Ranking? ==> r.speed == (if downSpeed == 0 then 1 else downSpeed)
  {
    var speed := if downSpeed == 0 then 1 else downSpeed;
    if speed > SPEED_THRESHOLD then AdmitAll else Ranking(speed, TRIES, 0)
  }

  /** What the ranker reads of another wire: its speed and whether it has the piece. */
  datatype Other = Other(speed: nat, has: bool)

  /** lib/torrent-client.js: a fast peer (at least the threshold), faster than this wire, that has the piece. */
  predicate CountsTC(o: Other, speed: nat)
  {
    o.speed >= SPEED_THRESHOLD && o.speed > speed && o.has
  }

  /** engine.js and lib/TorrentStream.js: a peer at least as fast as this wire that has the piece. */
  predicate CountsEngine(o: Other, speed: nat)
  {
    o.speed >= speed && o.has
  }

  /**
   * The scan of lib/torrent-client.js from `p`, with `budget` the missing
   * byte count times `speed`: each counted peer takes off what it delivers
   * while this wire fetches `MAX_REQUESTS` blocks (`otherSpeed * secs`,
   * times `speed`). The piece is refused at the first peer after which
   * nothing is left. Yields the verdict and where `ptr` stops.
   */
  function ScanTC(others: seq<Other>, speed: nat, budget: int, p: nat): (r: (bool, nat))
    ensures r.1 >= p
    ensures r.0 ==> r.1 == if p <= |others| then |others| else p
    ensures !r.0 ==> r.1 < |others| && CountsTC(others[r.1], speed)
    decreases |others| - p
  {
    if p >= |others| then (true, p)
    else if !CountsTC(others[p], speed) then ScanTC(others, speed, budget, p + 1)
    else
      var left := budget - others[p].speed * MAX_REQUESTS * BLOCK_SIZE;
      if left > 0 then ScanTC(others, speed, left, p + 1) else (false, p)
  }

  /**
   * The scan of engine.js and lib/TorrentStream.js: `missing -= otherSpeed
   * * secs > 0` parses as `missing -= (otherSpeed * secs > 0)`, so each
   * counted peer of non-zero speed takes off one byte, and the piece is
   * refused only when the count lands exactly on zero.
   */
  function ScanEngine(others: seq<Other>, speed: nat, missing: int, p: nat): (r: (bool, nat))
    ensures r.1 >= p
    ensures r.0 ==> r.1 == if p <= |others| then |others| else p
    ensures !r.0 ==> r.1 < |others| && CountsEngine(others[r.1], speed)
    decreases |others| - p
  {
    if p >= |others| then (true, p)
    else if !CountsEngine(others[p], speed) then ScanEngine(others, speed, missing, p + 1)
    else
      var left := missing - (if others[p].speed > 0 then 1 else 0);
      if left != 0 then ScanEngine(others, speed, left, p + 1) else (false, p)
  }

  /**
   * One call `rank(index)`: admitted outright when the tries are spent or
   * the piece is complete (`live` false); otherwise the version's scan over
   * the other wires, which moves `ptr` and spends a try on refusal.
   */
  function Rank(version: Version, rk: Ranker, live: bool, missing: int, others: seq<Other>): (r: (bool, Ranker))
  {
    match rk
    case AdmitAll => (true, rk)
    case Ranking(speed, tries, ptr) =>
      if tries == 0 || !live then (true, rk)
      else
        var s := if version == TorrentClient then ScanTC(others, speed, missing * speed, ptr)
                 else ScanEngine(others, speed, missing, ptr);
        if s.0 then (true, Ranking(speed, tries, s.1)) else (false, Ranking(speed, tries - 1, s.1))
  }

  /**
   * A wire faster than the threshold is never refused; nor is any wire
   * once its tries are spent or when the piece is complete. A refusal
   * spends exactly one try and never moves `ptr` backwards.
   */
  lemma RankAdmission(version: Version, rk: Ranker, live: bool, missing: int, others: seq<Other>)
    ensures rk.AdmitAll? ==> Rank(version, rk, live, missing, others) == (true, AdmitAll)
    ensures rk.Ranking? && (rk.tries == 0 || !live) ==> Rank(version, rk, live, missing, others) == (true, rk)
    ensures !Rank(version, rk, live, missing, others).0 ==>
              rk.Ranking? && rk.tries > 0 && live
              && Rank(version, rk, live, missing, others).1 == Ranking(rk.speed, rk.tries - 1, Rank(version, rk, live, missing, others).1.ptr)
              && Rank(version, rk, live, missing, others).1.ptr >= rk.ptr
  {
  }

  /** One ranking pass: the verdicts for successive calls, sharing `tries` and `ptr`. */
  datatype Call = Call(live: bool, missing: int, others: seq<Other>)

  function Refusals(version: Version, rk: Ranker, calls: seq<Call>): nat
    decreases |calls|
  {
    if calls == [] then 0
    else
      var r := Rank(version, rk, calls[0].live, calls[0].missing, calls[0].others);
      (if r.0 then 0 else 1) + Refusals(version, r.1, calls[1..])
  }

  /** A ranker refuses at most ten pieces in all, whatever it is asked. */
  lemma {:induction false} AtMostTenRefusals(version: Version, downSpeed: nat, calls: seq<Call>)
    ensures Refusals(version, NewRanker(downSpeed), calls) <= TRIES
  {
    RefusalsBounded(version, NewRanker(downSpeed), calls);
  }

  lemma {:induction false} RefusalsBounded(version: Version, rk: Ranker, calls: seq<Call>)
    ensures Refusals(version, rk, calls) <= (if rk.Ranking? then rk.tries else 0)
    decreases |calls|
  {
    if calls != [] {
      var r := Rank(version, rk, calls[0].live, calls[0].missing, calls[0].others);
      RankAdmission(version, rk, calls[0].live, calls[0].missing, calls[0].others);
      RefusalsBounded(version, r.1, calls[1..]);
    }
  }

  /** What the counted peers from `p` on deliver, times `speed`, while this wire fetches five blocks. */
  function Demand(others: seq<Other>, speed: nat, p: nat): nat
    decreases |others| - p
  {
    if p >= |others| then 0
    else (if CountsTC(others[p], speed) then others[p].speed * MAX_REQUESTS * BLOCK_SIZE else 0) + Demand(others, speed, p + 1)
  }

  predicate AnyCountsTC(others: seq<Other>, speed: nat, p: nat)
  {
    exists k :: p <= k < |others| && CountsTC(others[k], speed)
  }

  /**
   * lib/torrent-client.js refuses a piece exactly when some fast peer has
   * it and the fast peers together would deliver at least the missing
   * bytes in the time this wire needs for five blocks.
   */
  lemma {:induction false} ScanTCRefusesIffCovered(others: seq<Other>, speed: nat, budget: int, p: nat)
    ensures !ScanTC(others, speed, budget, p).0 <==> AnyCountsTC(others, speed, p) && budget <= Demand(others, speed, p)
    decreases |others| - p
  {
    if p < |others| {
      ScanTCRefusesIffCovered(others, speed, budget, p + 1);
      var left := budget - others[p].speed * MAX_REQUESTS * BLOCK_SIZE;
      ScanTCRefusesIffCovered(others, speed, left, p + 1);
      if CountsTC(others[p], speed) {
        assert AnyCountsTC(others, speed, p);
        if left <= 0 {
          assert budget <= Demand(others, speed, p);
        } else if AnyCountsTC(others, speed, p + 1) && left <= Demand(others, speed, p + 1) {
        } else if !AnyCountsTC(others, speed, p + 1) {
          DemandZero(others, speed, p + 1);
        }
      } else {
        if AnyCountsTC(others, speed, p) {
          var k :| p <= k < |others| && CountsTC(others[k], speed);
          assert k != p;
          assert AnyCountsTC(others, speed, p + 1);
        }
        if AnyCountsTC(others, speed, p + 1) {
          var k :| p + 1 <= k < |others| && CountsTC(others[k], speed);
          assert AnyCountsTC(others, speed, p);
        }
      }
    }
  }

  lemma {:induction false} DemandZero(others: seq<Other>, speed: nat, p: nat)
    requires !AnyCountsTC(others, speed, p)
    ensures Demand(others, speed, p) == 0
    decreases |others| - p
  {
    if p < |others| {
      assert forall k :: p + 1 <= k < |others| ==> !CountsTC(others[k], speed);
      DemandZero(others, speed, p + 1);
    }
  }

  /** The peers counted by engine.js from `p` on whose speed is not zero. */
  function Movers(others: seq<Other>, speed: nat, p: nat): nat
    decreases |others| - p
  {
    if p >= |others| then 0
    else (if CountsEngine(others[p], speed) && others[p].speed > 0 then 1 else 0) + Movers(others, speed, p + 1)
  }

  /**
   * As written in engine.js and lib/TorrentStream.js, a piece with
   * `missing` > 0 bytes is refused exactly when at least `missing` peers
   * of non-zero speed are counted: the byte count is compared with a
   * number of peers.
   */
  lemma {:induction false} ScanEngineCountsPeers(others: seq<Other>, speed: nat, missing: int, p: nat)
    requires missing > 0
    ensures !ScanEngine(others, speed, missing, p).0 <==> missing <= Movers(others, speed, p)
    decreases |others| - p
  {
    if p < |others| {
      if CountsEngine(others[p], speed) && others[p].speed > 0 {
        if missing - 1 > 0 {
          ScanEngineCountsPeers(others, speed, missing - 1, p + 1);
        }
      } else {
        ScanEngineCountsPeers(others, speed, missing, p + 1);
      }
    }
  }

  /**
   * The two readings part ways on a plain case: a wire of unknown speed
   * (taken as 1), a single other wire of 48 KiB/s that has the piece, one
   * block missing. torrent-client.js refuses (that peer brings the 16384
   * bytes in far less time); engine.js and lib/TorrentStream.js admit.
   */
  lemma PrecedenceCounterexample()
    ensures var others := [Other(SPEED_THRESHOLD, true)];
      && !Rank(TorrentClient, NewRanker(0), true, BLOCK_SIZE, others).0
      && Rank(EngineJs, NewRanker(0), true, BLOCK_SIZE, others).0
      && Rank(TorrentStream, NewRanker(0), true, BLOCK_SIZE, others).0
  {
    var others := [Other(SPEED_THRESHOLD, true)];
    assert ScanTC(others, 1, BLOCK_SIZE, 1) == (true, 1);
    assert !ScanTC(others, 1, BLOCK_SIZE, 0).0;
    assert ScanEngine(others, 1, BLOCK_SIZE - 1, 1) == (true, 1);
    assert ScanEngine(others, 1, BLOCK_SIZE, 0).0;
  }
}

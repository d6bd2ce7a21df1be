/**
 * The rechoke policy of `lib/rechoke.js`. Every cycle it chokes the seeders,
 * ranks the other peers (except the one pinned by an earlier optimistic
 * unchoke), unchokes them in rank order until `rechokeSlots` interested
 * peers are unchoked, perhaps unchokes one more interested peer at random
 * and pins it for two cycles, and sends `choke`/`unchoke` only to the peers
 * whose state changes.
 *
 * The two `Math.random` draws are inputs: a salt per wire, and `choice`,
 * which stands for `(Math.random() * candidates.length) | 0` as
 * `choice % candidates.length`. Speeds are naturals.
 */
module Rechoke {
  import opened Wrappers
  import opened Peer

  /** `RECHOKE_OPTIMISTIC_DURATION`: cycles an optimistic unchoke stays pinned. */
  const OptimisticDuration: nat := 2

  /** What a cycle reads from a wire before it decides anything. */
  datatype View = View(isSeeder: bool, downSpeed: nat, upSpeed: nat, peerInterested: bool, amChoking: bool)

  ghost function ViewOf(w: Wire): View
    reads w
  {
    View(w.isSeeder, w.downSpeed, w.upSpeed, w.peerInterested, w.amChoking)
  }

  ghost function Views(ws: seq<Wire>): (r: seq<View>)
    reads set w | w in ws
    ensures |r| == |ws| && forall j :: 0 <= j < |ws| ==> r[j] == ViewOf(ws[j])
  {
    seq(|ws|, j requires 0 <= j < |ws| reads ws => ViewOf(ws[j]))
  }

  /**
   * A ranked peer: the record the cycle pushes for a wire, which names the
   * wire by its position `pos` in the wire list.
   */
  datatype Entry = Entry(pos: nat, downSpeed: nat, upSpeed: nat, salt: int,
                         interested: bool, wasChoked: bool, isChoked: bool)

  /** `rechokeSort(a, b)`: negative when `a` ranks first. */
  function Compare(a: Entry, b: Entry): int
  {
    if a.downSpeed != b.downSpeed then (if a.downSpeed > b.downSpeed then -1 else 1)
    else if a.upSpeed != b.upSpeed then (if a.upSpeed > b.upSpeed then -1 else 1)
    else if a.wasChoked != b.wasChoked then (if a.wasChoked then 1 else -1)
    else a.salt - b.salt
  }

  /** The ranking as a lexicographic order: higher download speed, then higher upload speed, then unchoked, then smaller salt. */
  predicate RanksBefore(a: Entry, b: Entry)
  {
    || a.downSpeed > b.downSpeed
    || (a.downSpeed == b.downSpeed && a.upSpeed > b.upSpeed)
    || (a.downSpeed == b.downSpeed && a.upSpeed == b.upSpeed && !a.wasChoked && b.wasChoked)
    || (a.downSpeed == b.downSpeed && a.upSpeed == b.upSpeed && a.wasChoked == b.wasChoked && a.salt < b.salt)
  }

  /** The comparator puts `a` first exactly when it ranks before `b`, and calls them equal exactly when they tie on every key. */
  lemma CompareIsRanking(a: Entry, b: Entry)
    ensures Compare(a, b) < 0 <==> RanksBefore(a, b)
    ensures Compare(a, b) > 0 <==> RanksBefore(b, a)
    ensures Compare(a, b) == 0 <==> a.downSpeed == b.downSpeed && a.upSpeed == b.upSpeed && a.wasChoked == b.wasChoked && a.salt == b.salt
  {
  }

  /** The comparator is a consistent total preorder, as `Array.prototype.sort` needs. */
  lemma CompareTransitive(a: Entry, b: Entry, c: Entry)
    ensures Compare(a, b) <= 0 && Compare(b, c) <= 0 ==> Compare(a, c) <= 0
    ensures Compare(a, b) <= 0 || Compare(b, a) <= 0
  {
  }

  predicate Ranked(s: seq<Entry>)
  {
    forall i, j :: 0 <= i < j < |s| ==> Compare(s[i], s[j]) <= 0
  }

  predicate DistinctPos(s: seq<Entry>)
  {
    forall i, j :: 0 <= i < j < |s| ==> s[i].pos != s[j].pos
  }

  function Insert(x: Entry, s: seq<Entry>): seq<Entry>
  {
    if s == [] || Compare(x, s[0]) <= 0 then [x] + s else [s[0]] + Insert(x, s[1..])
  }

  lemma {:induction false} InsertElems(x: Entry, s: seq<Entry>)
    ensures multiset(Insert(x, s)) == multiset(s) + multiset{x}
  {
    if s != [] && Compare(x, s[0]) > 0 {
      InsertElems(x, s[1..]);
      assert s == [s[0]] + s[1..];
    }
  }

  lemma {:induction false} InsertRanked(x: Entry, s: seq<Entry>)
    requires Ranked(s)
    ensures Ranked(Insert(x, s))
  {
    if s == [] {
    } else if Compare(x, s[0]) <= 0 {
      forall j | 0 <= j < |s|
        ensures Compare(x, s[j]) <= 0
      {
        CompareTransitive(x, s[0], s[j]);
      }
    } else {
      var rest := Insert(x, s[1..]);
      InsertRanked(x, s[1..]);
      InsertElems(x, s[1..]);
      forall j | 0 <= j < |rest|
        ensures Compare(s[0], rest[j]) <= 0
      {
        assert rest[j] in multiset(rest);
        if rest[j] != x {
          assert rest[j] in s[1..];
        }
      }
    }
  }

  lemma {:induction false} InsertDistinct(x: Entry, s: seq<Entry>)
    requires DistinctPos(s) && forall k :: 0 <= k < |s| ==> s[k].pos != x.pos
    ensures DistinctPos(Insert(x, s))
  {
    if s != [] && Compare(x, s[0]) > 0 {
      var rest := Insert(x, s[1..]);
      InsertDistinct(x, s[1..]);
      InsertElems(x, s[1..]);
      forall j | 0 <= j < |rest|
        ensures rest[j].pos != s[0].pos
      {
        assert rest[j] in multiset(rest);
        if rest[j] != x {
          assert rest[j] in s[1..];
        }
      }
    }
  }

  /** `peers.sort(rechokeSort)`, as a stable insertion sort. */
  function Sort(s: seq<Entry>): seq<Entry>
  {
    if s == [] then [] else Insert(s[0], Sort(s[1..]))
  }

  /** The sorted peers are ranked, and a permutation of the peers. */
  lemma {:induction false} SortSpec(s: seq<Entry>)
    ensures Ranked(Sort(s)) && multiset(Sort(s)) == multiset(s)
  {
    if s != [] {
      var rest := Sort(s[1..]);
      SortSpec(s[1..]);
      InsertRanked(s[0], rest);
      InsertElems(s[0], rest);
      assert s == [s[0]] + s[1..];
    }
  }

  /** Sorting keeps the peers' positions distinct. */
  lemma {:induction false} SortDistinct(s: seq<Entry>)
    requires DistinctPos(s)
    ensures DistinctPos(Sort(s))
  {
    if s != [] {
      var rest := Sort(s[1..]);
      SortDistinct(s[1..]);
      SortSpec(s[1..]);
      forall k | 0 <= k < |rest|
        ensures rest[k].pos != s[0].pos
      {
        assert rest[k] in multiset(rest);
        assert rest[k] in s[1..];
      }
      InsertDistinct(s[0], rest);
    }
  }

  /** The entry the cycle pushes for wire `j`. */
  function EntryFor(ws: seq<Wire>, views: seq<View>, salts: seq<int>, j: nat): Entry
    requires j < |ws| == |views| == |salts|
  {
    Entry(j, views[j].downSpeed, views[j].upSpeed, salts[j], views[j].peerInterested, views[j].amChoking, true)
  }

  /** Whether the cycle ranks wire `j`: not a seeder, and not the pinned optimistic unchoke. */
  predicate IsRanked(ws: seq<Wire>, views: seq<View>, pin: Wire?, j: nat)
    requires j < |ws| == |views|
  {
    !views[j].isSeeder && ws[j] != pin
  }

  /** The records pushed by the `wires.forEach` pass, in wire order. */
  function Candidates(ws: seq<Wire>, views: seq<View>, pin: Wire?, salts: seq<int>): seq<Entry>
    requires |ws| == |views| == |salts|
    decreases |ws|
  {
    if ws == [] then []
    else
      var n := |ws| - 1;
      var rest := Candidates(ws[..n], views[..n], pin, salts[..n]);
      if views[n].isSeeder || ws[n] == pin then rest else rest + [EntryFor(ws, views, salts, n)]
  }

  /**
   * Each pushed record belongs to a ranked wire and is taken from that
   * wire's view, still choked; seeders and the pinned wire get none.
   */
  lemma {:induction false} CandidatesEntries(ws: seq<Wire>, views: seq<View>, pin: Wire?, salts: seq<int>)
    requires |ws| == |views| == |salts|
    ensures var r := Candidates(ws, views, pin, salts);
            forall k :: 0 <= k < |r| ==> r[k].pos < |ws| && IsRanked(ws, views, pin, r[k].pos)
                                         && r[k] == EntryFor(ws, views, salts, r[k].pos)
    decreases |ws|
  {
    if ws != [] {
      var n := |ws| - 1;
      var rest := Candidates(ws[..n], views[..n], pin, salts[..n]);
      CandidatesEntries(ws[..n], views[..n], pin, salts[..n]);
      assert var r := Candidates(ws[..n], views[..n], pin, salts[..n]);
             forall k :: 0 <= k < |r| ==> r[k].pos < |ws[..n]| && IsRanked(ws[..n], views[..n], pin, r[k].pos)
                                          && r[k] == EntryFor(ws[..n], views[..n], salts[..n], r[k].pos);
      assert forall p :: 0 <= p < n ==> EntryFor(ws[..n], views[..n], salts[..n], p) == EntryFor(ws, views, salts, p)
                                        && IsRanked(ws[..n], views[..n], pin, p) == IsRanked(ws, views, pin, p);
    }
  }

  /** The records are pushed in wire order. */
  lemma {:induction false} CandidatesInOrder(ws: seq<Wire>, views: seq<View>, pin: Wire?, salts: seq<int>)
    requires |ws| == |views| == |salts|
    ensures var r := Candidates(ws, views, pin, salts);
            forall i, k :: 0 <= i < k < |r| ==> r[i].pos < r[k].pos
    decreases |ws|
  {
    if ws != [] {
      var n := |ws| - 1;
      var rest := Candidates(ws[..n], views[..n], pin, salts[..n]);
      CandidatesInOrder(ws[..n], views[..n], pin, salts[..n]);
      assert var r := Candidates(ws[..n], views[..n], pin, salts[..n]);
             forall i, k :: 0 <= i < k < |r| ==> r[i].pos < r[k].pos;
      CandidatesEntries(ws[..n], views[..n], pin, salts[..n]);
      assert var r := Candidates(ws[..n], views[..n], pin, salts[..n]);
             forall k :: 0 <= k < |r| ==> r[k].pos < |ws[..n]| && IsRanked(ws[..n], views[..n], pin, r[k].pos)
                                          && r[k] == EntryFor(ws[..n], views[..n], salts[..n], r[k].pos);
    }
  }

  /** Every wire that is neither a seeder nor the pin gets a record. */
  lemma {:induction false} CandidatesComplete(ws: seq<Wire>, views: seq<View>, pin: Wire?, salts: seq<int>)
    requires |ws| == |views| == |salts|
    ensures forall j :: 0 <= j < |ws| && IsRanked(ws, views, pin, j) ==> j in Positions(Candidates(ws, views, pin, salts))
    decreases |ws|
  {
    if ws != [] {
      var n := |ws| - 1;
      var rest := Candidates(ws[..n], views[..n], pin, salts[..n]);
      var r := Candidates(ws, views, pin, salts);
      CandidatesComplete(ws[..n], views[..n], pin, salts[..n]);
      forall j | 0 <= j < |ws| && IsRanked(ws, views, pin, j)
        ensures j in Positions(r)
      {
        if j < n {
          assert IsRanked(ws[..n], views[..n], pin, j);
          var k :| 0 <= k < |rest| && rest[k].pos == j;
          assert r[k] == rest[k];
        } else {
          assert r[|r| - 1].pos == j;
        }
      }
    }
  }



  /** How many of the entries are interested. */
  function CountInterested(s: seq<Entry>): nat
  {
    if s == [] then 0 else CountInterested(s[..|s| - 1]) + (if s[|s| - 1].interested then 1 else 0)
  }

  lemma CountInterestedBound(s: seq<Entry>)
    ensures CountInterested(s) <= |s|
  {
  }

  /** The unchoke loop from position `i` with `count` interested peers unchoked so far: where it stops. */
  function CutFrom(peers: seq<Entry>, slots: nat, i: nat, count: nat): nat
    requires i <= |peers|
    decreases |peers| - i
  {
    if i < |peers| && count < slots then CutFrom(peers, slots, i + 1, count + (if peers[i].interested then 1 else 0))
    else i
  }

  /** Where the unchoke loop stops: the peers before it are the ones unchoked by rank. */
  function Cutoff(peers: seq<Entry>, slots: nat): nat
  {
    CutFrom(peers, slots, 0, 0)
  }

  /**
   * The unchoke loop stops right after the `slots`-th interested peer, or at
   * the end of the list when there are fewer: the peers before the cutoff
   * hold `min(slots, interested)` interested ones, and every shorter prefix
   * holds fewer than `slots`.
   */
  lemma CutoffIsFirstFull(peers: seq<Entry>, slots: nat)
    ensures var cut := Cutoff(peers, slots);
            && cut <= |peers|
            && CountInterested(peers[..cut]) == (if slots < CountInterested(peers) then slots else CountInterested(peers))
            && (cut == |peers| || CountInterested(peers[..cut]) == slots)
            && forall j :: 0 <= j < cut ==> CountInterested(peers[..j]) < slots
  {
    assert peers[..0] == [];
    CutFromSpec(peers, slots, 0, 0);
  }

  lemma {:induction false} CutFromSpec(peers: seq<Entry>, slots: nat, i: nat, count: nat)
    requires i <= |peers| && count == CountInterested(peers[..i]) && count <= slots
    requires forall j :: 0 <= j < i ==> CountInterested(peers[..j]) < slots
    ensures var cut := CutFrom(peers, slots, i, count);
            && i <= cut <= |peers|
            && CountInterested(peers[..cut]) == (if slots < CountInterested(peers) then slots else CountInterested(peers))
            && (cut == |peers| || CountInterested(peers[..cut]) == slots)
            && forall j :: 0 <= j < cut ==> CountInterested(peers[..j]) < slots
    decreases |peers| - i
  {
    if i < |peers| && count < slots {
      assert peers[..i + 1][..i] == peers[..i];
      CutFromSpec(peers, slots, i + 1, count + (if peers[i].interested then 1 else 0));
    } else if i < |peers| {
      CountMonotone(peers, i, |peers|);
      assert peers[..|peers|] == peers;
    } else {
      assert peers[..i] == peers;
    }
  }

  lemma {:induction false} CountMonotone(s: seq<Entry>, i: nat, j: nat)
    requires i <= j <= |s|
    ensures CountInterested(s[..i]) <= CountInterested(s[..j])
    decreases j - i
  {
    if i < j {
      CountMonotone(s, i, j - 1);
      assert s[..j][..j - 1] == s[..j - 1];
    }
  }

  /** `peers.slice(from).filter(peer => peer.interested)`, as positions in `peers`. */
  function Pool(peers: seq<Entry>, from: nat): (r: seq<nat>)
    ensures forall m :: 0 <= m < |r| ==> from <= r[m] < |peers| && peers[r[m]].interested
    ensures forall k :: from <= k < |peers| && peers[k].interested ==> k in r
    decreases |peers| - from
  {
    if from >= |peers| then []
    else (if peers[from].interested then [from] else []) + Pool(peers, from + 1)
  }

  /**
   * The optimistic unchoke: with no pin, a peer left over and `slots > 0`,
   * a random interested peer past the cutoff, if there is one.
   */
  function Pick(peers: seq<Entry>, slots: nat, pinFree: bool, choice: nat): (r: Option<nat>)
    ensures r.Some? ==> pinFree && slots > 0 && Cutoff(peers, slots) <= r.value < |peers| && peers[r.value].interested
    ensures r.None? ==> !pinFree || slots == 0
                        || forall k :: Cutoff(peers, slots) <= k < |peers| ==> !peers[k].interested
  {
    var cut := Cutoff(peers, slots);
    if pinFree && cut < |peers| && slots > 0 then
      var pool := Pool(peers, cut);
      if |pool| > 0 then Some(pool[choice % |pool|]) else None
    else None
  }

  /** The ranked peers with `isChoked` decided: unchoked before the cutoff and the optimistic pick, choked otherwise. */
  function Decided(peers: seq<Entry>, slots: nat, pick: Option<nat>): seq<Entry>
  {
    var cut := Cutoff(peers, slots);
    seq(|peers|, k requires 0 <= k < |peers| => peers[k].(isChoked := !(k < cut || pick == Some(k))))
  }

  /** How many entries are interested and unchoked. */
  function CountUnchokedInterested(s: seq<Entry>): nat
  {
    if s == [] then 0
    else CountUnchokedInterested(s[..|s| - 1]) + (if s[|s| - 1].interested && !s[|s| - 1].isChoked then 1 else 0)
  }

  /**
   * After a cycle, the interested unchoked peers are `min(rechokeSlots,
   * interested)` by rank plus at most the one optimistic pick.
   */
  lemma UnchokedInterested(peers: seq<Entry>, slots: nat, pinFree: bool, choice: nat)
    ensures var pick := Pick(peers, slots, pinFree, choice);
            var total := CountInterested(peers);
            CountUnchokedInterested(Decided(peers, slots, pick))
              == (if slots < total then slots else total) + (if pick.Some? then 1 else 0)
  {
    var pick := Pick(peers, slots, pinFree, choice);
    var d := Decided(peers, slots, pick);
    var cut := Cutoff(peers, slots);
    CutoffIsFirstFull(peers, slots);
    UnchokedPrefix(peers, slots, pick, |peers|);
    assert d[..|peers|] == d;
    assert peers[..cut] == peers[..cut];
  }

  lemma {:induction false} UnchokedPrefix(peers: seq<Entry>, slots: nat, pick: Option<nat>, m: nat)
    requires m <= |peers|
    requires pick.Some? ==> Cutoff(peers, slots) <= pick.value < |peers| && peers[pick.value].interested
    ensures var cut := Cutoff(peers, slots);
            var d := Decided(peers, slots, pick);
            CountUnchokedInterested(d[..m])
              == CountInterested(peers[..if m < cut then m else cut])
                 + (if pick.Some? && pick.value < m then 1 else 0)
  {
    var cut := Cutoff(peers, slots);
    var d := Decided(peers, slots, pick);
    if m > 0 {
      UnchokedPrefix(peers, slots, pick, m - 1);
      assert d[..m][..m - 1] == d[..m - 1] && d[..m][m - 1] == d[m - 1];
      assert d[m - 1].interested == peers[m - 1].interested && d[m - 1].isChoked == !(m - 1 < cut || pick == Some(m - 1));
      if m <= cut {
        assert peers[..m][..m - 1] == peers[..m - 1] && peers[..m][m - 1] == peers[m - 1];
      }
    }
  }

  /** With `rechokeSlots` 0, every ranked peer ends up choked. */
  lemma NoSlotsChokesAll(peers: seq<Entry>, pinFree: bool, choice: nat)
    ensures forall k :: 0 <= k < |peers| ==> Decided(peers, 0, Pick(peers, 0, pinFree, choice))[k].isChoked
  {
    assert Cutoff(peers, 0) == 0;
  }

  /** What a peer is sent at the end of the cycle: `choke` or `unchoke` when its state changes, nothing otherwise. */
  function Toggle(e: Entry): (r: seq<Msg>)
    ensures |r| <= 1
    ensures r == [] <==> e.wasChoked == e.isChoked
    ensures r == [Choke] <==> !e.wasChoked && e.isChoked
    ensures r == [Unchoke] <==> e.wasChoked && !e.isChoked
  {
    if e.wasChoked == e.isChoked then [] else if e.isChoked then [Choke] else [Unchoke]
  }

  /** The pin left after the countdown at the start of a cycle. */
  function Pinned(optimistic: Wire?, time: nat): (r: Wire?)
    ensures time == 0 ==> r == null
    ensures time > 0 ==> r == optimistic
  {
    if time > 0 then optimistic else null
  }

  /** No wire is listed twice. */
  predicate DistinctWires(ws: seq<Wire>)
  {
    forall i, j :: 0 <= i < j < |ws| ==> ws[i] != ws[j]
  }

  /** `index` maps each listed wire back to its position. */
  ghost predicate WiresIndexed(ws: seq<Wire>, index: map<Wire, nat>)
  {
    forall j :: 0 <= j < |ws| ==> ws[j] in index && index[ws[j]] == j
  }

  /** `slot` maps each record's position back to the record's index. */
  ghost predicate SlotsIndexed(s: seq<Entry>, slot: map<nat, nat>)
  {
    forall k :: 0 <= k < |s| ==> s[k].pos in slot && slot[s[k].pos] == k
  }

  lemma WireIndex(ws: seq<Wire>) returns (index: map<Wire, nat>)
    requires DistinctWires(ws)
    ensures WiresIndexed(ws, index)
  {
    index := map j | 0 <= j < |ws| :: ws[j] := j;
  }

  lemma SlotIndex(s: seq<Entry>) returns (slot: map<nat, nat>)
    requires DistinctPos(s)
    ensures SlotsIndexed(s, slot)
  {
    slot := map k | 0 <= k < |s| :: s[k].pos := k;
  }

  /** The rechoke state: the optimistic pin and its countdown, and `rechokeSlots`. */
  class Rechoker {
    const slots: nat
    var optimistic: Wire?
    var optimisticTime: nat

    constructor (slots: nat)
      ensures this.slots == slots && optimistic == null && optimisticTime == 0
    {
      this.slots := slots;
      optimistic := null;
      optimisticTime := 0;
    }

    /**
     * `rechoke()` over the swarm's current wires: the pin counts down,
     * seeders are choked, the ranked peers get the decided state, and
     * only the changes are sent.
     */
    method Rechoke(wires: seq<Wire>, salts: seq<int>, choice: nat)
      requires DistinctWires(wires) && |salts| == |wires|
      modifies this`optimistic, this`optimisticTime, wires`amChoking, wires`sent
      ensures var views := old(Views(wires));
              var pin := Pinned(old(optimistic), old(optimisticTime));
              var ranked := Sort(Candidates(wires, views, pin, salts));
              var pick := Pick(ranked, slots, pin == null, choice);
              && (pick.Some? ==> ranked[pick.value].pos < |wires| && optimistic == wires[ranked[pick.value].pos]
                                 && optimisticTime == OptimisticDuration)
              && (pick.None? ==> optimistic == pin && optimisticTime == if old(optimisticTime) > 0 then old(optimisticTime) - 1 else 0)
              && (forall j :: 0 <= j < |wires| && views[j].isSeeder ==>
                    wires[j].amChoking && wires[j].sent == old(wires[j].sent) + (if views[j].amChoking then [] else [Choke]))
              && (forall j :: 0 <= j < |wires| && !views[j].isSeeder && wires[j] == pin ==>
                    wires[j].amChoking == views[j].amChoking && wires[j].sent == old(wires[j].sent))
              && var d := Decided(ranked, slots, pick);
                 forall k :: 0 <= k < |d| ==>
                   && d[k].pos < |wires|
                   && wires[d[k].pos].amChoking == d[k].isChoked
                   && wires[d[k].pos].sent == old(wires[d[k].pos].sent) + Toggle(d[k])
    {
      ghost var views := Views(wires);
      if optimisticTime > 0 {
        optimisticTime := optimisticTime - 1;
      } else {
        optimistic := null;
      }
      var pin := optimistic;
      assert pin == Pinned(old(optimistic), old(optimisticTime));
      var ranked, pick := Cycle(wires, views, pin, salts, slots, choice);
      if pick.Some? {
        optimistic := wires[ranked[pick.value].pos];
        optimisticTime := OptimisticDuration;
      }
    }
  }

  /**
   * The body of `rechoke()` after the countdown, over the wires' states
   * `views` at the start of the cycle: it returns the ranked peers and the
   * optimistic pick, and leaves every wire in its decided state.
   */
  method Cycle(wires: seq<Wire>, ghost views: seq<View>, pin: Wire?, salts: seq<int>, slots: nat, choice: nat)
    returns (ranked: seq<Entry>, pick: Option<nat>)
    requires DistinctWires(wires) && |salts| == |wires| == |views|
    requires forall j :: 0 <= j < |wires| ==> views[j] == ViewOf(wires[j])
    modifies wires`amChoking, wires`sent
    ensures ranked == Sort(Candidates(wires, views, pin, salts))
    ensures pick == Pick(ranked, slots, pin == null, choice)
    ensures forall k :: 0 <= k < |ranked| ==> ranked[k].pos < |wires|
    ensures forall j :: 0 <= j < |wires| && views[j].isSeeder ==>
              wires[j].amChoking && wires[j].sent == old(wires[j].sent) + (if views[j].amChoking then [] else [Choke])
    ensures forall j :: 0 <= j < |wires| && !views[j].isSeeder && wires[j] == pin ==>
              wires[j].amChoking == views[j].amChoking && wires[j].sent == old(wires[j].sent)
    ensures var d := Decided(ranked, slots, pick);
            forall k :: 0 <= k < |d| ==>
              && d[k].pos < |wires|
              && wires[d[k].pos].amChoking == d[k].isChoked
              && wires[d[k].pos].sent == old(wires[d[k].pos].sent) + Toggle(d[k])
  {
    ghost var index := WireIndex(wires);
    var peers := ChokeSeeders(wires, index, views, pin, salts);
    ranked := Sort(peers);
    ghost var slot := DecidedEntries(wires, views, pin, salts, slots, choice);
    assert forall k :: 0 <= k < |ranked| ==> ranked[k].isChoked && ranked[k].pos < |wires|;
    var decided;
    decided, pick := Decide(ranked, slots, pin == null, choice);
    assert SlotsIndexed(decided, slot)
           && forall k :: 0 <= k < |decided| ==>
                decided[k].pos < |wires| && IsRanked(wires, views, pin, decided[k].pos)
                && decided[k].wasChoked == views[decided[k].pos].amChoking;
    assert forall j :: 0 <= j < |wires| && !IsRanked(wires, views, pin, j) ==> j !in Positions(decided);
    SendChanges(wires, index, views, decided, slot);
  }

  /**
   * The decided records name distinct ranked wires, each with its
   * choking state at the start of the cycle.
   */
  lemma DecidedEntries(ws: seq<Wire>, views: seq<View>, pin: Wire?, salts: seq<int>, slots: nat, choice: nat)
    returns (slot: map<nat, nat>)
    requires |ws| == |views| == |salts|
    ensures var ranked := Sort(Candidates(ws, views, pin, salts));
            var d := Decided(ranked, slots, Pick(ranked, slots, pin == null, choice));
            && (forall k :: 0 <= k < |ranked| ==> ranked[k].isChoked && ranked[k].pos < |ws|)
            && SlotsIndexed(d, slot)
            && forall k :: 0 <= k < |d| ==>
                 d[k].pos < |ws| && IsRanked(ws, views, pin, d[k].pos) && d[k].wasChoked == views[d[k].pos].amChoking
  {
    var ranked := Sort(Candidates(ws, views, pin, salts));
    var d := Decided(ranked, slots, Pick(ranked, slots, pin == null, choice));
    RankedEntries(ws, views, pin, salts);
    assert DistinctPos(d);
    slot := SlotIndex(d);
  }

  /**
   * The ranked peers are the pushed records in rank order: each is the
   * record of a ranked wire, and no wire appears twice.
   */
  lemma RankedEntries(ws: seq<Wire>, views: seq<View>, pin: Wire?, salts: seq<int>)
    requires |ws| == |views| == |salts|
    ensures var ranked := Sort(Candidates(ws, views, pin, salts));
            && DistinctPos(ranked)
            && forall k :: 0 <= k < |ranked| ==>
                 ranked[k].pos < |ws| && IsRanked(ws, views, pin, ranked[k].pos) && ranked[k] == EntryFor(ws, views, salts, ranked[k].pos)
  {
    var peers := Candidates(ws, views, pin, salts);
    var ranked := Sort(peers);
    CandidatesEntries(ws, views, pin, salts);
    CandidatesInOrder(ws, views, pin, salts);
    assert var r := Candidates(ws, views, pin, salts);
           forall k :: 0 <= k < |r| ==> r[k].pos < |ws| && IsRanked(ws, views, pin, r[k].pos)
                                        && r[k] == EntryFor(ws, views, salts, r[k].pos);
    assert var r := Candidates(ws, views, pin, salts);
           forall i, k :: 0 <= i < k < |r| ==> r[i].pos < r[k].pos;
    assert DistinctPos(peers) by {
      forall i, j | 0 <= i < j < |peers|
        ensures peers[i].pos != peers[j].pos
      {
        assert peers[i].pos < peers[j].pos;
      }
    }
    SortDistinct(peers);
    SortSpec(peers);
    forall k | 0 <= k < |ranked|
      ensures ranked[k].pos < |ws| && IsRanked(ws, views, pin, ranked[k].pos) && ranked[k] == EntryFor(ws, views, salts, ranked[k].pos)
    {
      assert ranked[k] in multiset(peers);
      var i :| 0 <= i < |peers| && peers[i] == ranked[k];
      assert peers[i].pos < |ws| && IsRanked(ws, views, pin, peers[i].pos) && peers[i] == EntryFor(ws, views, salts, peers[i].pos);
    }
  }

  /**
   * The unchoke loop and the optimistic unchoke, on the ranked records:
   * the decided records, and which of them (if any) is the optimistic pick.
   */
  method Decide(ranked: seq<Entry>, slots: nat, pinFree: bool, choice: nat) returns (peers: seq<Entry>, pick: Option<nat>)
    requires forall k :: 0 <= k < |ranked| ==> ranked[k].isChoked
    ensures pick == Pick(ranked, slots, pinFree, choice)
    ensures peers == Decided(ranked, slots, pick)
  {
    var i;
    peers, i := UnchokeByRank(ranked, slots);
    pick := None;
    if pinFree && i < |peers| && slots > 0 {
      var candidates := Pool(ranked, i);
      if |candidates| > 0 {
        var k := candidates[choice % |candidates|];
        pick := Some(k);
        peers := peers[k := peers[k].(isChoked := false)];
      }
    }
  }

  /**
   * The `wires.forEach` pass: seeders are choked unless they already are,
   * and a record is pushed for every other wire except the pinned one.
   */
  method ChokeSeeders(wires: seq<Wire>, ghost index: map<Wire, nat>, ghost views: seq<View>, pin: Wire?, salts: seq<int>) returns (peers: seq<Entry>)
    requires WiresIndexed(wires, index) && |salts| == |wires| == |views|
    requires forall j :: 0 <= j < |wires| ==> views[j] == ViewOf(wires[j])
    modifies wires`amChoking, wires`sent
    ensures peers == Candidates(wires, views, pin, salts)
    ensures forall j :: 0 <= j < |wires| ==> Visited(wires[j], views[j], old(wires[j].sent), true)
  {
    peers := [];
    for j := 0 to |wires|
      invariant peers == Candidates(wires[..j], views[..j], pin, salts[..j])
      invariant forall m :: 0 <= m < |wires| ==> Visited(wires[m], views[m], old(wires[m].sent), m < j)
    {
      var wire := wires[j];
      CandidatesSnoc(wires, views, pin, salts, j);
      assert ViewOf(wire) == views[j];
      if wire.isSeeder {
        ChokeSeeder(wire);
      } else if wire != pin {
        peers := peers + [Entry(j, wire.downSpeed, wire.upSpeed, salts[j], wire.peerInterested, wire.amChoking, true)];
      }
    }
    assert wires[..|wires|] == wires && views[..|wires|] == views && salts[..|wires|] == salts;
  }

  /**
   * A wire's state once the pass has (`done`) or has not yet reached it:
   * a seeder it reached is choking, with `choke` sent unless it already
   * was; any other wire still has its view `v` and its messages `sent0`.
   */
  ghost predicate Visited(w: Wire, v: View, sent0: seq<Msg>, done: bool)
    reads w
  {
    if done && v.isSeeder then w.amChoking && w.sent == sent0 + (if v.amChoking then [] else [Choke])
    else ViewOf(w) == v && w.sent == sent0
  }


  lemma CandidatesSnoc(ws: seq<Wire>, views: seq<View>, pin: Wire?, salts: seq<int>, j: nat)
    requires j < |ws| == |views| == |salts|
    ensures Candidates(ws[..j + 1], views[..j + 1], pin, salts[..j + 1])
            == Candidates(ws[..j], views[..j], pin, salts[..j])
               + (if IsRanked(ws, views, pin, j) then [EntryFor(ws, views, salts, j)] else [])
  {
    assert ws[..j + 1][..j] == ws[..j] && views[..j + 1][..j] == views[..j] && salts[..j + 1][..j] == salts[..j];
  }

  /** A seeder is choked, unless it already is. */
  method ChokeSeeder(w: Wire)
    modifies w`amChoking, w`sent
    ensures w.amChoking && w.sent == old(w.sent) + (if old(w.amChoking) then [] else [Choke])
  {
    if !w.amChoking {
      w.SendChoke();
    }
  }

  /** The unchoke loop: the ranked peers before the cutoff are unchoked, the rest stay choked. */
  method UnchokeByRank(ranked: seq<Entry>, slots: nat) returns (peers: seq<Entry>, i: nat)
    requires forall k :: 0 <= k < |ranked| ==> ranked[k].isChoked
    ensures i == Cutoff(ranked, slots) && |peers| == |ranked|
    ensures forall k :: 0 <= k < |peers| ==> peers[k] == ranked[k].(isChoked := i <= k)
  {
    i := 0;
    var unchokeInterested := 0;
    peers := ranked;
    while i < |peers| && unchokeInterested < slots
      invariant i <= |peers| == |ranked|
      invariant CutFrom(ranked, slots, i, unchokeInterested) == Cutoff(ranked, slots)
      invariant forall k :: 0 <= k < |peers| ==> peers[k] == ranked[k].(isChoked := i <= k)
    {
      peers := peers[i := peers[i].(isChoked := false)];
      if peers[i].interested {
        unchokeInterested := unchokeInterested + 1;
      }
      i := i + 1;
    }
  }

  /** The wire positions the records name. */
  function Positions(peers: seq<Entry>): set<nat>
  {
    set k | 0 <= k < |peers| :: peers[k].pos
  }

  /** The last pass: `choke()` or `unchoke()` to each peer whose decided state differs from its previous one. */
  method SendChanges(wires: seq<Wire>, ghost index: map<Wire, nat>, ghost views: seq<View>, peers: seq<Entry>, ghost slot: map<nat, nat>)
    requires WiresIndexed(wires, index) && SlotsIndexed(peers, slot) && |views| == |wires|
    requires forall k :: 0 <= k < |peers| ==>
               peers[k].pos < |wires| && !views[peers[k].pos].isSeeder && peers[k].wasChoked == views[peers[k].pos].amChoking
    requires forall j :: 0 <= j < |wires| && !views[j].isSeeder ==> wires[j].amChoking == views[j].amChoking
    modifies wires`amChoking, wires`sent
    ensures forall k :: 0 <= k < |peers| ==> Applied(wires[peers[k].pos], peers[k], old(wires[peers[k].pos].sent), true)
    ensures forall j :: 0 <= j < |wires| && j !in Positions(peers) ==>
              wires[j].amChoking == old(wires[j].amChoking) && wires[j].sent == old(wires[j].sent)
  {
    for k := 0 to |peers|
      invariant forall m :: 0 <= m < |peers| ==> Applied(wires[peers[m].pos], peers[m], old(wires[peers[m].pos].sent), m < k)
      invariant forall j :: 0 <= j < |wires| && j !in Positions(peers) ==>
                  wires[j].amChoking == old(wires[j].amChoking) && wires[j].sent == old(wires[j].sent)
    {
      var p := peers[k].pos;
      assert p in Positions(peers);
      Send(wires[p], peers[k]);
    }
  }

  /**
   * A peer's wire once the last pass has (`done`) or has not yet reached
   * its record `e`: the decided state and the toggle sent, or still the
   * previous state with the messages `sent0`.
   */
  ghost predicate Applied(w: Wire, e: Entry, sent0: seq<Msg>, done: bool)
    reads w
  {
    if done then w.amChoking == e.isChoked && w.sent == sent0 + Toggle(e)
    else w.amChoking == e.wasChoked && w.sent == sent0
  }

  /** One peer's step of the last pass. */
  method Send(w: Wire, e: Entry)
    requires w.amChoking == e.wasChoked
    modifies w`amChoking, w`sent
    ensures w.amChoking == e.isChoked && w.sent == old(w.sent) + Toggle(e)
  {
    if e.wasChoked != e.isChoked {
      if e.isChoked {
        w.SendChoke();
      } else {
        w.SendUnchoke();
      }
    }
  }
}

/**
 * The selection list shared by the three scheduler generations: ranges of
 * wanted pieces with a cursor and a priority, kept sorted by descending
 * priority, and the garbage-collection pass that moves cursors over
 * completed pieces and drops finished ranges.
 */
module Selection {
  import opened EngineEvents

  /** `{from, to, offset, priority, notify}`; `notify` is the callback's identity. */
  datatype Range = Range(from: int, to: int, offset: nat, priority: int, notify: nat)

  /** The JavaScript value passed as a priority. */
  datatype PriorityArg = Flag(b: bool) | Num(n: int) | Absent

  predicate Truthy(v: PriorityArg)
  {
    match v
    case Flag(b) => b
    case Num(n) => n != 0
    case Absent => false
  }

  /** `toNumber` / `priority === true ? 1 : (priority || 0)`. */
  function ToNumber(v: PriorityArg): (r: int)
    ensures !Truthy(v) ==> r == 0
    ensures v == Flag(true) ==> r == 1
    ensures Truthy(v) && v.Num? ==> r == v.n
    ensures r == 0 <==> !Truthy(v)
  {
    match v
    case Flag(b) => if b then 1 else 0
    case Num(n) => n
    case Absent => 0
  }

  // ---------------------------------------------------------------- sorting

  ghost predicate SortedDesc(s: seq<Range>)
  {
    forall i, j :: 0 <= i < j < |s| ==> s[i].priority >= s[j].priority
  }

  /**
   * Insertion of `x` into a descending list behind every entry whose
   * priority is at least its own: one step of a stable sort.
   */
  function InsertDesc(t: seq<Range>, x: Range): (r: seq<Range>)
    ensures |r| == |t| + 1
    decreases |t|
  {
    if t == [] then [x]
    else if t[|t| - 1].priority >= x.priority then t + [x]
    else InsertDesc(t[..|t| - 1], x) + [t[|t| - 1]]
  }

  /**
   * `selection.sort((a, b) => b.priority - a.priority)`, taken as a stable
   * sort (entries of equal priority keep their order).
   */
  function SortDesc(s: seq<Range>): (r: seq<Range>)
    ensures |r| == |s|
  {
    if s == [] then [] else InsertDesc(SortDesc(s[..|s| - 1]), s[|s| - 1])
  }

  lemma {:induction false} InsertDescProperties(t: seq<Range>, x: Range)
    requires SortedDesc(t)
    ensures SortedDesc(InsertDesc(t, x))
    ensures multiset(InsertDesc(t, x)) == multiset(t) + multiset{x}
    decreases |t|
  {
    if t == [] {
    } else if t[|t| - 1].priority >= x.priority {
    } else {
      var init := t[..|t| - 1];
      var last := t[|t| - 1];
      assert t == init + [last];
      InsertDescProperties(init, x);
      var u := InsertDesc(init, x);
      InsertDescBound(init, x, last.priority);
      assert forall k :: 0 <= k < |u| ==> u[k].priority >= last.priority;
    }
  }

  lemma {:induction false} InsertDescBound(t: seq<Range>, x: Range, p: int)
    requires SortedDesc(t) && x.priority >= p
    requires forall k :: 0 <= k < |t| ==> t[k].priority >= p
    ensures forall k :: 0 <= k < |InsertDesc(t, x)| ==> InsertDesc(t, x)[k].priority >= p
    decreases |t|
  {
    if t != [] && t[|t| - 1].priority < x.priority {
      InsertDescBound(t[..|t| - 1], x, p);
    }
  }

  /** The sort yields a descending list holding exactly the entries it was given. */
  lemma {:induction false} SortDescCorrect(s: seq<Range>)
    ensures SortedDesc(SortDesc(s))
    ensures multiset(SortDesc(s)) == multiset(s)
  {
    if s != [] {
      SortDescCorrect(s[..|s| - 1]);
      InsertDescProperties(SortDesc(s[..|s| - 1]), s[|s| - 1]);
      assert s == s[..|s| - 1] + [s[|s| - 1]];
    }
  }

  /** A list that is already descending is left exactly as it is (the sort is stable). */
  lemma {:induction false} SortDescKeepsSorted(s: seq<Range>)
    requires SortedDesc(s)
    ensures SortDesc(s) == s
  {
    if s != [] {
      SortDescKeepsSorted(s[..|s| - 1]);
      assert s == s[..|s| - 1] + [s[|s| - 1]];
    }
  }

  /** `select(from, to, priority, notify)`: append with cursor 0 and normalised priority, then sort. */
  function Select(s: seq<Range>, from: int, to: int, priority: PriorityArg, notify: nat): seq<Range>
  {
    SortDesc(s + [Range(from, to, 0, ToNumber(priority), notify)])
  }

  /** On an already sorted list, `select` places the new range behind every range of at least its priority. */
  lemma SelectInserts(s: seq<Range>, from: int, to: int, priority: PriorityArg, notify: nat)
    requires SortedDesc(s)
    ensures Select(s, from, to, priority, notify) == InsertDesc(s, Range(from, to, 0, ToNumber(priority), notify))
    ensures SortedDesc(Select(s, from, to, priority, notify))
    ensures multiset(Select(s, from, to, priority, notify)) == multiset(s) + multiset{Range(from, to, 0, ToNumber(priority), notify)}
  {
    var x := Range(from, to, 0, ToNumber(priority), notify);
    assert (s + [x])[..|s|] == s;
    SortDescKeepsSorted(s);
    InsertDescProperties(s, x);
  }

  // -------------------------------------------------------------- deselect

  predicate Matches(r: Range, from: int, to: int, priority: int)
  {
    r.from == from && r.to == to && r.priority == priority
  }

  /** `deselect(from, to, priority)`: drop the first range with these bounds and normalised priority. */
  function Deselect(s: seq<Range>, from: int, to: int, priority: int): seq<Range>
  {
    if s == [] then []
    else if Matches(s[0], from, to, priority) then s[1..]
    else [s[0]] + Deselect(s[1..], from, to, priority)
  }

  /**
   * `deselect` removes at most one range, the first match; without a match
   * the list is unchanged.
   */
  lemma {:induction false} DeselectRemovesFirstMatch(s: seq<Range>, from: int, to: int, priority: int)
    ensures (forall k :: 0 <= k < |s| ==> !Matches(s[k], from, to, priority)) ==> Deselect(s, from, to, priority) == s
    ensures forall k :: 0 <= k < |s| && Matches(s[k], from, to, priority)
                        && (forall m :: 0 <= m < k ==> !Matches(s[m], from, to, priority))
                        ==> Deselect(s, from, to, priority) == s[..k] + s[k + 1..]
  {
    if forall k :: 0 <= k < |s| ==> !Matches(s[k], from, to, priority) {
      DeselectSkipsPrefix(s, |s|, from, to, priority);
      assert s[..|s|] == s;
    }
    forall k | 0 <= k < |s| && Matches(s[k], from, to, priority)
               && (forall m :: 0 <= m < k ==> !Matches(s[m], from, to, priority))
      ensures Deselect(s, from, to, priority) == s[..k] + s[k + 1..]
    {
      DeselectSkipsPrefix(s, k, from, to, priority);
      assert s[k..][1..] == s[k + 1..];
    }
  }

  lemma {:induction false} DeselectSkipsPrefix(s: seq<Range>, i: nat, from: int, to: int, priority: int)
    requires i <= |s|
    requires forall k :: 0 <= k < i ==> !Matches(s[k], from, to, priority)
    ensures Deselect(s, from, to, priority) == s[..i] + Deselect(s[i..], from, to, priority)
  {
    if i > 0 {
      DeselectSkipsPrefix(s[1..], i - 1, from, to, priority);
      assert s[1..][i - 1..] == s[i..];
      assert [s[0]] + s[1..][..i - 1] == s[..i];
    }
  }

  lemma {:induction false} InsertDescShape(t: seq<Range>, x: Range) returns (k: nat)
    ensures k <= |t| && InsertDesc(t, x) == t[..k] + [x] + t[k..]
    decreases |t|
  {
    if t == [] {
      k := 0;
    } else if t[|t| - 1].priority >= x.priority {
      k := |t|;
    } else {
      var init := t[..|t| - 1];
      k := InsertDescShape(init, x);
      assert t[..k] == init[..k];
      assert t[k..] == init[k..] + [t[|t| - 1]];
    }
  }

  /** On a sorted list, `select` inserts the new range at a single position. */
  lemma SelectShape(s: seq<Range>, from: int, to: int, priority: PriorityArg, notify: nat) returns (k: nat)
    requires SortedDesc(s)
    ensures k <= |s|
    ensures Select(s, from, to, priority, notify) == s[..k] + [Range(from, to, 0, ToNumber(priority), notify)] + s[k..]
  {
    var x := Range(from, to, 0, ToNumber(priority), notify);
    assert (s + [x])[..|s|] == s;
    SortDescKeepsSorted(s);
    k := InsertDescShape(s, x);
  }

  /** Deselecting a range inserted in front of every other match removes exactly it. */
  lemma DeselectInserted(s: seq<Range>, k: nat, x: Range, from: int, to: int, priority: int)
    requires k <= |s| && Matches(x, from, to, priority)
    requires forall m :: 0 <= m < k ==> !Matches(s[m], from, to, priority)
    ensures Deselect(s[..k] + [x] + s[k..], from, to, priority) == s
  {
    var u := s[..k] + [x] + s[k..];
    assert forall m :: 0 <= m < k ==> u[m] == s[m];
    DeselectSkipsPrefix(u, k, from, to, priority);
    assert u[..k] == s[..k];
    var tail := u[k..];
    assert tail[0] == x && tail[1..] == s[k..];
    assert s[..k] + s[k..] == s;
  }

  /**
   * `select` followed by the matching `deselect` gives back the list it
   * started from, when no range of that list had the same bounds and priority.
   */
  lemma SelectThenDeselect(s: seq<Range>, from: int, to: int, priority: PriorityArg, notify: nat)
    requires SortedDesc(s)
    requires forall k :: 0 <= k < |s| ==> !Matches(s[k], from, to, ToNumber(priority))
    ensures Deselect(Select(s, from, to, priority, notify), from, to, ToNumber(priority)) == s
  {
    var k := SelectShape(s, from, to, priority, notify);
    DeselectInserted(s, k, Range(from, to, 0, ToNumber(priority), notify), from, to, ToNumber(priority));
  }

  // ------------------------------------------------------------ gc pass

  /** Piece `k` counts as complete: no live assembly buffer (an index outside the table included). */
  predicate Done(live: seq<bool>, k: int)
  {
    !(0 <= k < |live| && live[k])
  }

  /** `while (!pieces[from+offset] && from+offset < to) offset++`. */
  function Advance(lo: int, hi: int, offset: nat, live: seq<bool>): nat
    decreases hi - lo - offset
  {
    if Done(live, lo + offset) && lo + offset < hi then Advance(lo, hi, offset + 1, live) else offset
  }

  function Advanced(r: Range, live: seq<bool>): Range
  {
    r.(offset := Advance(r.from, r.to, r.offset, live))
  }

  /** The cursor is on `to` and that piece is complete: the range is dropped. */
  predicate Finished(r: Range, live: seq<bool>)
  {
    r.from + r.offset == r.to && Done(live, r.to)
  }

  /**
   * The cursor moves only over complete pieces, never past `to - from`, and
   * stops on `to` or on the first live piece.
   */
  lemma {:induction false} AdvanceSound(lo: int, hi: int, offset: nat, live: seq<bool>)
    ensures offset <= Advance(lo, hi, offset, live)
    ensures forall k :: lo + offset <= k < lo + Advance(lo, hi, offset, live) ==> Done(live, k)
    ensures lo + offset <= hi ==> lo + Advance(lo, hi, offset, live) <= hi
    ensures lo + offset > hi ==> Advance(lo, hi, offset, live) == offset
    ensures lo + Advance(lo, hi, offset, live) < hi ==> !Done(live, lo + Advance(lo, hi, offset, live))
    decreases hi - lo - offset
  {
    if Done(live, lo + offset) && lo + offset < hi {
      AdvanceSound(lo, hi, offset + 1, live);
    }
  }

  /**
   * A range whose cursor is not past `to` is dropped exactly when every
   * piece from its cursor to `to` is complete; a range that stays has its
   * cursor on a live piece.
   */
  lemma FinishedIff(r: Range, live: seq<bool>)
    requires r.from + r.offset <= r.to
    ensures Finished(Advanced(r, live), live) <==> forall k :: r.from + r.offset <= k <= r.to ==> Done(live, k)
    ensures !Finished(Advanced(r, live), live) ==> !Done(live, r.from + Advanced(r, live).offset)
  {
    AdvanceSound(r.from, r.to, r.offset, live);
  }

  /** The ranges the gc pass keeps, each with its advanced cursor, in their order. */
  function Keep(s: seq<Range>, live: seq<bool>): (r: seq<Range>)
    ensures |r| <= |s|
  {
    if s == [] then []
    else
      var a := Advanced(s[|s| - 1], live);
      Keep(s[..|s| - 1], live) + (if Finished(a, live) then [] else [a])
  }

  /** Every kept range is an advanced input range that is not finished, and every such range is kept. */
  lemma {:induction false} KeepExactly(s: seq<Range>, live: seq<bool>)
    ensures forall x :: x in Keep(s, live) ==> !Finished(x, live) && exists y :: y in s && x == Advanced(y, live)
    ensures forall y :: y in s && !Finished(Advanced(y, live), live) ==> Advanced(y, live) in Keep(s, live)
  {
    if s != [] {
      KeepExactly(s[..|s| - 1], live);
      assert s == s[..|s| - 1] + [s[|s| - 1]];
    }
  }

  /** The events of gc's handling of one range. */
  function StepEvents(version: Version, r: Range, live: seq<bool>, lengthAfter: nat, interested: bool): seq<Event>
  {
    var a := Advanced(r, live);
    (if a.offset != r.offset then [Notify(r.notify)] else [])
    + (if Finished(a, live) then [Notify(r.notify)] + InterestEvents(version, interested, lengthAfter > 0) else [])
  }

  /** What a gc pass has produced so far: the kept ranges, the events and the `amInterested` flag. */
  datatype GcOut = GcOut(kept: seq<Range>, log: seq<Event>, interested: bool)

  /**
   * The gc pass over the first `j` ranges of `s`, one range at a time: the
   * range's cursor is advanced, and a finished range is dropped, which
   * re-evaluates interest against the length the list has after the drop.
   */
  function GcRun(version: Version, s: seq<Range>, live: seq<bool>, j: nat, interested: bool): GcOut
    requires j <= |s|
  {
    if j == 0 then GcOut([], [], interested)
    else
      var prev := GcRun(version, s, live, j - 1, interested);
      var a := Advanced(s[j - 1], live);
      var finished := Finished(a, live);
      var kept := if finished then prev.kept else prev.kept + [a];
      var lengthAfter := |kept| + (|s| - j);
      GcOut(kept,
            prev.log + StepEvents(version, s[j - 1], live, lengthAfter, prev.interested),
            if finished then NextInterest(version, prev.interested, lengthAfter > 0) else prev.interested)
  }

  /** The ranges the pass keeps do not depend on the events or on interest. */
  lemma {:induction false} GcRunKeeps(version: Version, s: seq<Range>, live: seq<bool>, j: nat, interested: bool)
    requires j <= |s|
    ensures GcRun(version, s, live, j, interested).kept == Keep(s[..j], live)
  {
    if j > 0 {
      GcRunKeeps(version, s, live, j - 1, interested);
      assert s[..j][..j - 1] == s[..j - 1];
    }
  }

  /**
   * The state of a gc pass after it has handled the first `j` ranges of `s`:
   * the list holds the kept ranges followed by the untouched rest, the index
   * `i` points just past the kept ones, and the event log (which started as
   * `e0`) and `interested` are what the pass has produced so far.
   */
  ghost predicate GcState(version: Version, s: seq<Range>, live: seq<bool>, e0: seq<Event>, interested0: bool,
                          j: nat, sel: seq<Range>, i: nat, ev: seq<Event>, interested: bool)
  {
    && j <= |s|
    && var o := GcRun(version, s, live, j, interested0);
    && sel == o.kept + s[j..]
    && i == |o.kept|
    && |sel| == i + (|s| - j)
    && ev == e0 + o.log
    && interested == o.interested
  }

  lemma GcStart(version: Version, s: seq<Range>, live: seq<bool>, e0: seq<Event>, interested0: bool)
    ensures GcState(version, s, live, e0, interested0, 0, s, 0, e0, interested0)
  {
    assert s[0..] == s;
    assert e0 + [] == e0;
  }

  /**
   * One iteration of gc: advancing the range at `i` and dropping it when it
   * is finished moves the state from `j` to `j + 1` handled ranges.
   */
  lemma GcAdvance(version: Version, s: seq<Range>, live: seq<bool>, e0: seq<Event>, interested0: bool,
                  j: nat, sel: seq<Range>, i: nat, ev: seq<Event>, interested: bool,
                  removed: bool, sel': seq<Range>, ev': seq<Event>, interested': bool)
    requires GcState(version, s, live, e0, interested0, j, sel, i, ev, interested)
    requires i < |sel|
    requires removed == Finished(Advanced(sel[i], live), live)
    requires sel' == if removed then sel[..i] + sel[i + 1..] else sel[i := Advanced(sel[i], live)]
    requires ev' == ev + StepEvents(version, sel[i], live, |sel'|, interested)
    requires interested' == if removed then NextInterest(version, interested, |sel'| > 0) else interested
    ensures j < |s|
    ensures GcState(version, s, live, e0, interested0, j + 1, sel', if removed then i else i + 1, ev', interested')
  {
    var o := GcRun(version, s, live, j, interested0);
    GcKeptStep(s, live, j, o.kept, sel, i, removed, sel');
    var step := StepEvents(version, s[j], live, |sel'|, interested);
    AppendAssoc(e0, o.log, step);
  }

  lemma AppendAssoc<T>(a: seq<T>, b: seq<T>, c: seq<T>)
    ensures (a + b) + c == a + (b + c)
  {
  }

  /** The list part of one gc iteration: the range at `i` (which is `s[j]`) is advanced or dropped. */
  lemma GcKeptStep(s: seq<Range>, live: seq<bool>, j: nat, kept: seq<Range>, sel: seq<Range>, i: nat,
                   removed: bool, sel': seq<Range>)
    requires j <= |s| && sel == kept + s[j..] && i == |kept| && i < |sel|
    requires removed == Finished(Advanced(sel[i], live), live)
    requires sel' == if removed then sel[..i] + sel[i + 1..] else sel[i := Advanced(sel[i], live)]
    ensures j < |s| && sel[i] == s[j]
    ensures sel' == (if removed then kept else kept + [Advanced(s[j], live)]) + s[j + 1..]
  {
    assert s[j..] == [s[j]] + s[j + 1..];
  }

  /** At the end of the pass every range has been handled. */
  lemma GcEnd(version: Version, s: seq<Range>, live: seq<bool>, e0: seq<Event>, interested0: bool,
              j: nat, sel: seq<Range>, i: nat, ev: seq<Event>, interested: bool)
    requires GcState(version, s, live, e0, interested0, j, sel, i, ev, interested)
    requires i >= |sel|
    ensures sel == Keep(s, live)
    ensures ev + (if sel == [] then [Idle] else []) == e0 + GcLog(version, s, live, interested0)
    ensures interested == GcRun(version, s, live, |s|, interested0).interested
  {
    GcRunKeeps(version, s, live, |s|, interested0);
    assert s[..|s|] == s;
  }

  /** All events of a gc pass: `idle` closes it when the selection ends up empty. */
  function GcLog(version: Version, s: seq<Range>, live: seq<bool>, interested: bool): seq<Event>
  {
    var o := GcRun(version, s, live, |s|, interested);
    o.log + (if o.kept == [] then [Idle] else [])
  }

  /**
   * The boundary case of the scheduler's design: a range of pieces 0..4
   * whose pieces 0 and 1 are already complete gets cursor 2, and its
   * `notify` fires once.
   */
  lemma CursorScenario(version: Version, interested: bool)
    ensures Keep([Range(0, 4, 0, 1, 7)], [false, false, true, true, true]) == [Range(0, 4, 2, 1, 7)]
    ensures GcLog(version, [Range(0, 4, 0, 1, 7)], [false, false, true, true, true], interested) == [Notify(7)]
  {
    var live := [false, false, true, true, true];
    var s := [Range(0, 4, 0, 1, 7)];
    assert Advance(0, 4, 2, live) == 2;
    assert Advance(0, 4, 1, live) == 2;
    assert Advance(0, 4, 0, live) == 2;
    assert s[..0] == [];
    assert s[..1] == s;
  }

  /** A range of one piece that is already complete is dropped by the first pass. */
  lemma CompleteSingleRangeDropped(version: Version, p: nat, live: seq<bool>, id: nat, prio: int, interested: bool)
    requires Done(live, p)
    ensures Keep([Range(p, p, 0, prio, id)], live) == []
    ensures GcLog(version, [Range(p, p, 0, prio, id)], live, interested)
            == [Notify(id)] + InterestEvents(version, interested, false) + [Idle]
  {
    var s := [Range(p, p, 0, prio, id)];
    assert Advance(p, p, 0, live) == 0;
    assert Finished(Advanced(s[0], live), live);
    assert s[..0] == [];
    assert s[..1] == s;
    assert Keep(s, live) == [];
    assert StepEvents(version, s[0], live, 0, interested) == [Notify(id)] + InterestEvents(version, interested, false);
    assert GcRun(version, s, live, 1, interested).log == [Notify(id)] + InterestEvents(version, interested, false);
  }

  // ------------------------------------------------------ shufflePriority

  /** End of the run of non-zero priorities that starts at `i` (or `i` itself when it has priority 0). */
  function RunEnd(s: seq<Range>, i: nat, j: nat, last: nat): nat
    requires i <= last < |s| && i <= j
    decreases |s| - j
  {
    if j < |s| && s[j].priority != 0 then RunEnd(s, i, j + 1, j) else last
  }

  lemma {:induction false} RunEndBounds(s: seq<Range>, i: nat, j: nat, last: nat)
    requires i <= last < |s| && i <= j
    requires (j == i && last == i) || (j == last + 1 && forall k :: i <= k < j ==> s[k].priority != 0)
    ensures i <= RunEnd(s, i, j, last) < |s|
    ensures s[i].priority != 0 ==> forall k :: i <= k <= RunEnd(s, i, j, last) ==> s[k].priority != 0
    ensures s[i].priority != 0 ==> RunEnd(s, i, j, last) + 1 == |s| || s[RunEnd(s, i, j, last) + 1].priority == 0
    ensures s[i].priority == 0 ==> RunEnd(s, i, j, last) == i
    decreases |s| - j
  {
    if j != i {
      assert s[i].priority != 0;
    }
    if j < |s| && s[j].priority != 0 {
      RunEndBounds(s, i, j + 1, j);
    } else if j != i {
      assert RunEnd(s, i, j, last) == last && last + 1 == j;
      assert j == |s| || s[j].priority == 0;
    }
  }

  /** `shufflePriority(i)`: swap entry `i` with the last entry of its run of non-zero priorities. */
  function Shuffle(s: seq<Range>, i: nat): (r: seq<Range>)
    requires i < |s|
  {
    var e := RunEnd(s, i, i, i);
    RunEndBounds(s, i, i, i);
    s[i := s[e]][e := s[i]]
  }

  /**
   * The shuffle moves entry `i` to the end of its non-zero run and that
   * entry to `i`; everything else stays, and no entry is lost.
   */
  lemma ShuffleMovesToRunEnd(s: seq<Range>, i: nat)
    requires i < |s| && s[i].priority != 0
    ensures |Shuffle(s, i)| == |s| && i <= RunEnd(s, i, i, i) < |s|
    ensures Shuffle(s, i)[RunEnd(s, i, i, i)] == s[i] && Shuffle(s, i)[i] == s[RunEnd(s, i, i, i)]
    ensures forall k :: 0 <= k < |s| && k != i && k != RunEnd(s, i, i, i) ==> Shuffle(s, i)[k] == s[k]
    ensures forall k :: i <= k <= RunEnd(s, i, i, i) ==> s[k].priority != 0
    ensures RunEnd(s, i, i, i) + 1 == |s| || s[RunEnd(s, i, i, i) + 1].priority == 0
    ensures multiset(Shuffle(s, i)) == multiset(s)
  {
    RunEndBounds(s, i, i, i);
  }
}

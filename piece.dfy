/**
 * The per-piece assembly buffer of lib/piece.js: a piece is fetched in
 * blocks of 16 KiB; the buffer hands out block indices to request, takes
 * back cancelled ones, stores arriving blocks once each and, when every
 * block is there, yields the piece exactly once.
 */
module Piece {
  import opened Wrappers
  import opened Bytes

  const BLOCK_SIZE: nat := 16384

  /** `Math.ceil(length / BLOCK_SIZE)`: the number of blocks of a piece. */
  function Parts(length: nat): (n: nat)
    ensures length == 0 <==> n == 0
    ensures n * BLOCK_SIZE >= length
    ensures n > 0 ==> (n - 1) * BLOCK_SIZE < length
  {
    (length + BLOCK_SIZE - 1) / BLOCK_SIZE
  }

  /** `(length % BLOCK_SIZE) || BLOCK_SIZE`: the size of the last block. */
  function Remainder(length: nat): (r: nat)
    ensures 0 < r <= BLOCK_SIZE
    ensures length > 0 ==> (Parts(length) - 1) * BLOCK_SIZE + r == length
  {
    var m := length % BLOCK_SIZE;
    var q := length / BLOCK_SIZE;
    assert length == q * BLOCK_SIZE + m;
    if m == 0 then
      (assert length > 0 ==> Parts(length) == q; BLOCK_SIZE)
    else
      (assert Parts(length) == q + 1; m)
  }

  /** `size(i)`: the last block gets the remainder, every other one a full block. */
  function BlockLength(length: nat, i: int): (r: nat)
    ensures 0 < r <= BLOCK_SIZE
    ensures 0 <= i < Parts(length) ==> i * BLOCK_SIZE + r <= length
  {
    if i == Parts(length) - 1 then Remainder(length) else BLOCK_SIZE
  }

  /** `offset(i)`: where block `i` starts inside its piece. */
  function BlockOffset(i: nat): nat
  {
    i * BLOCK_SIZE
  }

  /** Total size of blocks `0 .. k-1` of a piece. */
  function SizesUpTo(length: nat, k: nat): nat
  {
    if k == 0 then 0 else SizesUpTo(length, k - 1) + BlockLength(length, k - 1)
  }

  lemma {:induction false} SizesBeforeLast(length: nat, k: nat)
    requires k < Parts(length)
    ensures SizesUpTo(length, k) == k * BLOCK_SIZE
  {
    if k > 0 {
      SizesBeforeLast(length, k - 1);
    }
  }

  /** The block sizes of a piece add up to its length. */
  lemma SizesSum(length: nat)
    ensures SizesUpTo(length, Parts(length)) == length
  {
    var n := Parts(length);
    if n > 0 {
      SizesBeforeLast(length, n - 1);
    }
  }

  /** Block `i` covers bytes `[offset(i), offset(i) + size(i))`, so consecutive blocks abut. */
  lemma BlocksAbut(length: nat, i: nat)
    requires i + 1 < Parts(length)
    ensures BlockOffset(i) + BlockLength(length, i) == BlockOffset(i + 1)
  {
  }

  /** Number of filled slots. */
  function Filled(slots: seq<Option<Bytes>>): (n: nat)
    ensures n <= |slots|
    ensures n == |slots| <==> forall k :: 0 <= k < |slots| ==> slots[k].Some?
  {
    if slots == [] then 0
    else Filled(slots[..|slots| - 1]) + (if slots[|slots| - 1].Some? then 1 else 0)
  }

  lemma {:induction false} FilledUpdate(slots: seq<Option<Bytes>>, i: nat, data: Bytes)
    requires i < |slots| && slots[i].None?
    ensures Filled(slots[i := Some(data)]) == Filled(slots) + 1
    decreases |slots|
  {
    var n := |slots|;
    var t := slots[i := Some(data)];
    var init, tinit := slots[..n - 1], t[..n - 1];
    assert Filled(t) == Filled(tinit) + (if t[n - 1].Some? then 1 else 0);
    assert Filled(slots) == Filled(init) + (if slots[n - 1].Some? then 1 else 0);
    if i < n - 1 {
      assert tinit == init[i := Some(data)];
      FilledUpdate(init, i, data);
      assert t[n - 1] == slots[n - 1];
    } else {
      assert tinit == init;
    }
  }

  /** The data of completely filled slots, in index order. */
  function Contents(slots: seq<Option<Bytes>>): seq<Bytes>
    requires forall k :: 0 <= k < |slots| ==> slots[k].Some?
  {
    seq(|slots|, k requires 0 <= k < |slots| => slots[k].value)
  }

  /**
   * One `PieceBuffer`. `inited` says whether `buffer`, `cancellations` and
   * `sources` are allocated (they are `null` before the first use and after
   * `flush`). `S` is the type of a block's source (the peer it came from).
   */
  class PieceBuffer<S(==)> {
    const length: nat
    const parts: nat
    const remainder: nat
    var missing: int
    var buffered: nat
    var inited: bool
    var buffer: seq<Option<Bytes>>
    var cancellations: seq<nat>
    var reservations: nat
    var sources: seq<S>
    var flushed: bool

    ghost predicate Valid()
      reads this
    {
      && parts == Parts(length)
      && remainder == Remainder(length)
      && reservations <= parts
      && (forall k :: 0 <= k < |cancellations| ==> cancellations[k] < parts)
      && (inited ==> |buffer| == parts && buffered == Filled(buffer))
      && (!inited ==> buffered == 0 || flushed)
      && (flushed ==> !inited)
      && (forall a, b :: 0 <= a < b < |sources| ==> sources[a] != sources[b])
    }

    constructor (length: nat)
      ensures Valid()
      ensures this.length == length && missing == length
      ensures buffered == 0 && reservations == 0 && !inited && !flushed
      ensures buffer == [] && cancellations == [] && sources == []
    {
      this.length := length;
      parts := Parts(length);
      remainder := Remainder(length);
      missing := length;
      buffered := 0;
      inited := false;
      buffer := [];
      cancellations := [];
      reservations := 0;
      sources := [];
      flushed := false;
    }

    /** `size(i)`. */
    function Size(i: int): (r: nat)
      reads this
      requires Valid()
      ensures r == BlockLength(length, i)
    {
      if i == parts - 1 then remainder else BLOCK_SIZE
    }

    /** A fresh or cancelled block is still available. */
    predicate CanReserve()
      reads this
    {
      !flushed && (|cancellations| > 0 || reservations < parts)
    }

    /** `init()`: allocates the slot arrays on first use; false once flushed. */
    method Init() returns (ok: bool)
      requires Valid()
      modifies this
      ensures Valid()
      ensures ok == !flushed && flushed == old(flushed)
      ensures ok ==> inited
      ensures old(inited) || flushed ==> buffer == old(buffer) && inited == old(inited)
      ensures !old(inited) && !flushed ==> buffer == EmptySlots(parts) && buffered == 0
      ensures cancellations == old(cancellations) && sources == old(sources)
      ensures missing == old(missing) && reservations == old(reservations)
      ensures old(inited) || flushed ==> buffered == old(buffered)
    {
      if flushed {
        return false;
      }
      if inited {
        return true;
      }
      buffer := EmptySlots(parts);
      assert Filled(buffer) == 0 by { EmptyFilled(parts); }
      inited := true;
      return true;
    }

    /**
     * `reserve()`: the most recently cancelled block first, then the next
     * never-reserved block, then -1; always -1 once flushed.
     */
    method Reserve() returns (r: int)
      requires Valid()
      modifies this
      ensures Valid()
      ensures old(flushed) ==> r == -1 && cancellations == old(cancellations) && reservations == old(reservations)
      ensures !old(flushed) && old(cancellations) != [] ==>
                r == old(cancellations)[|old(cancellations)| - 1]
                && cancellations == old(cancellations)[..|old(cancellations)| - 1]
                && reservations == old(reservations)
      ensures !old(flushed) && old(cancellations) == [] && old(reservations) < parts ==>
                r == old(reservations) && reservations == old(reservations) + 1 && cancellations == []
      ensures !old(flushed) && old(cancellations) == [] && old(reservations) == parts ==>
                r == -1 && reservations == parts && cancellations == []
      ensures r == -1 <==> !old(CanReserve())
      ensures r != -1 ==> 0 <= r < parts
      ensures flushed == old(flushed) && missing == old(missing) && sources == old(sources)
      ensures old(inited) || flushed ==> buffer == old(buffer) && buffered == old(buffered)
      ensures !old(inited) && !flushed ==> buffer == EmptySlots(parts) && buffered == 0
      ensures inited == !flushed
    {
      var ok := Init();
      if !ok {
        return -1;
      }
      if |cancellations| > 0 {
        r := cancellations[|cancellations| - 1];
        cancellations := cancellations[..|cancellations| - 1];
        return;
      }
      if reservations < parts {
        r := reservations;
        reservations := reservations + 1;
        return;
      }
      return -1;
    }

    /** `cancel(i)`: block `i` becomes the next one `reserve` hands out; ignored once flushed. */
    method Cancel(i: nat)
      requires Valid() && i < parts
      modifies this
      ensures Valid()
      ensures cancellations == if old(flushed) then old(cancellations) else old(cancellations) + [i]
      ensures flushed == old(flushed) && reservations == old(reservations)
      ensures missing == old(missing) && sources == old(sources)
      ensures old(inited) || flushed ==> buffer == old(buffer) && buffered == old(buffered)
      ensures !old(inited) && !flushed ==> buffer == EmptySlots(parts) && buffered == 0
      ensures inited == !flushed
    {
      var ok := Init();
      if !ok {
        return;
      }
      cancellations := cancellations + [i];
    }

    /** `get(i)`: the stored block, if any; nothing once flushed. */
    method Get(i: nat) returns (r: Option<Bytes>)
      requires Valid() && i < parts
      modifies this
      ensures Valid()
      ensures old(flushed) ==> r == None
      ensures !old(flushed) && old(inited) ==> r == old(buffer)[i]
      ensures !old(flushed) && !old(inited) ==> r == None
      ensures flushed == old(flushed) && cancellations == old(cancellations) && reservations == old(reservations)
      ensures missing == old(missing) && sources == old(sources)
      ensures old(inited) || flushed ==> buffer == old(buffer) && buffered == old(buffered)
      ensures !old(inited) && !flushed ==> buffer == EmptySlots(parts) && buffered == 0
      ensures inited == !flushed
    {
      var ok := Init();
      if !ok {
        return None;
      }
      r := buffer[i];
    }

    /**
     * `set(i, data, source)`: stores block `i` unless it is already there,
     * and reports whether every block is now stored. Once flushed: false.
     */
    method Set(i: nat, data: Bytes, source: S) returns (full: bool)
      requires Valid() && i < parts
      modifies this
      ensures Valid()
      ensures old(flushed) ==> !full && buffer == old(buffer) && buffered == old(buffered)
                               && missing == old(missing) && sources == old(sources)
      ensures !old(flushed) && old(inited) && old(buffer)[i].Some? ==>
                buffer == old(buffer) && buffered == old(buffered) && missing == old(missing) && sources == old(sources)
      ensures !old(flushed) && (!old(inited) || old(buffer)[i].None?) ==>
                && (old(inited) ==> buffer == old(buffer)[i := Some(data)])
                && (!old(inited) ==> buffer == EmptySlots(parts)[i := Some(data)])
                && buffered == old(buffered) + 1
                && missing == old(missing) - |data|
                && sources == if source in old(sources) then old(sources) else old(sources) + [source]
      ensures full <==> !flushed && buffered == parts
      ensures full <==> !flushed && forall k :: 0 <= k < |buffer| ==> buffer[k].Some?
      ensures flushed == old(flushed) && cancellations == old(cancellations) && reservations == old(reservations)
      ensures inited == !flushed
    {
      var ok := Init();
      if !ok {
        return false;
      }
      if buffer[i].None? {
        FilledUpdate(buffer, i, data);
        buffered := buffered + 1;
        buffer := buffer[i := Some(data)];
        missing := missing - |data|;
        if source !in sources {
          sources := sources + [source];
        }
      }
      full := buffered == parts;
    }

    /**
     * `flush()`: once every block is stored and only the first time, the
     * blocks in index order cut (or zero-filled) to the piece length.
     */
    method Flush() returns (r: Option<Bytes>)
      requires Valid()
      modifies this
      ensures Valid()
      ensures r.Some? <==> old(inited) && old(buffered) == parts
      ensures r.Some? ==> (forall k :: 0 <= k < |old(buffer)| ==> old(buffer)[k].Some?)
                          && r.value == Fit(Concat(Contents(old(buffer))), length)
                          && flushed && !inited && buffer == [] && cancellations == [] && sources == []
      ensures r.None? ==> flushed == old(flushed) && inited == old(inited) && buffer == old(buffer)
                          && cancellations == old(cancellations) && sources == old(sources)
      ensures buffered == old(buffered) && missing == old(missing) && reservations == old(reservations)
    {
      if !inited || parts != buffered {
        return None;
      }
      var data := Fit(Concat(Contents(buffer)), length);
      buffer := [];
      cancellations := [];
      sources := [];
      inited := false;
      flushed := true;
      return Some(data);
    }
  }

  /** A freshly allocated slot array: `new Array(parts)`. */
  function EmptySlots(n: nat): (r: seq<Option<Bytes>>)
    ensures |r| == n
  {
    seq(n, _ => None)
  }

  lemma {:induction false} EmptyFilled(n: nat)
    ensures Filled(EmptySlots(n)) == 0
  {
    if n > 0 {
      assert EmptySlots(n)[..n - 1] == EmptySlots(n - 1);
      EmptyFilled(n - 1);
    }
  }
}

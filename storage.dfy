/**
 * The multi-file store of lib/storage.js. The pieces of a torrent run over
 * the concatenation of its files (the metainfo "info dictionary" of BEP 3),
 * so a piece is stored as fragments of one or more files: the store keeps,
 * per piece, the list of fragments in file order, writes a piece by
 * slicing it over its fragments and reads a piece, or a byte range of it,
 * by reading and joining them. Files are byte sequences held in a map from
 * file index to contents; a missing key is a file that does not exist.
 */
module Storage {
  import opened Wrappers
  import opened Bytes

  /** A file of the torrent: where it starts in the concatenation, and its length. */
  datatype FileEntry = FileEntry(offset: nat, length: nat)

  /**
   * The part of file `file` that holds bytes `from .. to` of a piece; the
   * first of them is at position `offset` of the file.
   */
  datatype Fragment = Fragment(file: nat, from: nat, to: nat, offset: nat)

  /** A fragment whose byte range runs forward, as every fragment of the table does. */
  type Part = t: Fragment | t.from <= t.to witness Fragment(0, 0, 0, 0)

  // ------------------------------------------------------ the fragment table

  /**
   * Where piece `p` starts in the concatenation of the files, `p * pl`,
   * counted out in whole pieces so that the solver sees no product.
   */
  function PieceStart(p: int, pl: nat): (r: int)
    ensures p >= 0 ==> r >= 0
    decreases if p >= 0 then p else -p
  {
    if p == 0 then 0 else if p > 0 then PieceStart(p - 1, pl) + pl else PieceStart(p + 1, pl) - pl
  }

  lemma {:induction false} PieceStartIsProduct(p: int, pl: nat)
    ensures PieceStart(p, pl) == p * pl
    decreases if p >= 0 then p else -p
  {
    if p > 0 {
      PieceStartIsProduct(p - 1, pl);
      assert (p - 1) * pl + pl == p * pl;
    } else if p < 0 {
      PieceStartIsProduct(p + 1, pl);
      assert (p + 1) * pl - pl == p * pl;
    }
  }

  /**
   * File `f` has a fragment in the piece starting at `ps`
   * (`firstPiece <= p <= lastPiece` in the source): the file starts before
   * the piece ends and ends after the piece starts; an empty file counts
   * when it lies strictly inside.
   */
  predicate Covers(f: FileEntry, ps: int, pl: nat)
  {
    f.offset < ps + pl && ps < f.offset + f.length
  }

  lemma {:induction false} FloorBounds(x: int, d: nat)
    requires d > 0
    ensures (x / d) * d <= x < (x / d) * d + d
  {
  }

  lemma NonNegFactor(n: int, d: nat)
    requires d > 0 && n * d >= 0
    ensures n >= 0
  {
  }

  lemma {:induction false} MulLe(a: int, b: int, d: nat)
    requires a <= b
    ensures a * d <= b * d
  {
  }

  /**
   * The source's piece range `Math.floor(fileStart / pl) .. Math.floor((fileEnd - 1) / pl)`
   * is exactly the set of pieces the file covers.
   */
  lemma CoversRange(f: FileEntry, p: int, pl: nat)
    requires pl > 0
    ensures Covers(f, PieceStart(p, pl), pl) <==> f.offset / pl <= p <= (f.offset + f.length - 1) / pl
  {
    PieceStartIsProduct(p, pl);
    CoversRangeProduct(f, p, pl);
  }

  lemma CoversRangeProduct(f: FileEntry, p: int, pl: nat)
    requires pl > 0
    ensures Covers(f, p * pl, pl) <==> f.offset / pl <= p <= (f.offset + f.length - 1) / pl
  {
    assert (p + 1) * pl == p * pl + pl;
    BelowEnd(f.offset, p, pl);
    AboveStart(f.offset + f.length, p, pl);
  }

  /** Piece `p` starts before `x`'s piece ends exactly when `x`'s piece is at most `p`. */
  lemma BelowEnd(x: nat, p: int, pl: nat)
    requires pl > 0
    ensures x / pl <= p <==> x < p * pl + pl
  {
    var a := x / pl;
    FloorBounds(x, pl);
    if a <= p {
      MulLe(a + 1, p + 1, pl);
      assert (a + 1) * pl == a * pl + pl;
      assert (p + 1) * pl == p * pl + pl;
    } else {
      MulLe(p + 1, a, pl);
      assert (p + 1) * pl == p * pl + pl;
    }
  }

  /** Piece `p` starts before `y` exactly when `p` is at most the piece of `y`'s last byte. */
  lemma AboveStart(y: nat, p: int, pl: nat)
    requires pl > 0
    ensures p <= (y - 1) / pl <==> p * pl < y
  {
    var b := (y - 1) / pl;
    FloorBounds(y - 1, pl);
    if p <= b {
      MulLe(p, b, pl);
    } else {
      MulLe(b + 1, p, pl);
      assert (b + 1) * pl == b * pl + pl;
    }
  }

  /** The fragment of file `i` in the piece starting at `ps`, with the source's `from`, `to` and `offset`. */
  function Frag(i: nat, f: FileEntry, ps: int, pl: nat): (t: Part)
    requires Covers(f, ps, pl)
    ensures t.file == i && t.from <= t.to <= pl
    ensures t.from == (if f.offset < ps then 0 else f.offset - ps)
    ensures t.to == (if f.offset + f.length > ps + pl then pl else f.offset + f.length - ps)
    ensures t.offset == (if f.offset > ps then 0 else ps - f.offset)
    ensures t.to - t.from <= f.length
  {
    var fe := f.offset + f.length;
    Fragment(i,
             if f.offset < ps then 0 else f.offset - ps,
             if fe > ps + pl then pl else fe - ps,
             if f.offset > ps then 0 else ps - f.offset)
  }

  /** The fragments of the piece starting at `ps` from files `j ..`, in file order. */
  function PieceFrags(files: seq<FileEntry>, j: nat, ps: int, pl: nat): (r: seq<Part>)
    ensures forall k :: 0 <= k < |r| ==> j <= r[k].file < |files|
    ensures forall k :: 0 <= k < |r| ==> r[k].from <= r[k].to <= pl
    decreases |files| - j
  {
    if j >= |files| then []
    else (if Covers(files[j], ps, pl) then [Frag(j, files[j], ps, pl)] else []) + PieceFrags(files, j + 1, ps, pl)
  }

  /** One file more at the end only adds that file's fragment, if any, at the end. */
  lemma {:induction false} PieceFragsSnoc(files: seq<FileEntry>, x: FileEntry, j: nat, ps: int, pl: nat)
    requires j <= |files|
    ensures PieceFrags(files + [x], j, ps, pl)
            == PieceFrags(files, j, ps, pl) + (if Covers(x, ps, pl) then [Frag(|files|, x, ps, pl)] else [])
    decreases |files| - j
  {
    var last := if Covers(x, ps, pl) then [Frag(|files|, x, ps, pl)] else [];
    if j < |files| {
      var own := if Covers(files[j], ps, pl) then [Frag(j, files[j], ps, pl)] else [];
      assert (files + [x])[j] == files[j];
      calc {
        PieceFrags(files + [x], j, ps, pl);
        own + PieceFrags(files + [x], j + 1, ps, pl);
        { PieceFragsSnoc(files, x, j + 1, ps, pl); }
        own + (PieceFrags(files, j + 1, ps, pl) + last);
        (own + PieceFrags(files, j + 1, ps, pl)) + last;
      }
    } else {
      assert (files + [x])[j] == x;
      assert PieceFrags(files + [x], j + 1, ps, pl) == [];
    }
  }

  /** The `piecesMap` the constructor builds: a piece has an entry exactly when some file covers it. */
  ghost predicate IsTable(table: map<int, seq<Part>>, files: seq<FileEntry>, pl: nat)
  {
    && (forall p :: p in table <==> PieceFrags(files, 0, PieceStart(p, pl), pl) != [])
    && (forall p :: p in table ==> table[p] == PieceFrags(files, 0, PieceStart(p, pl), pl))
  }

  /** Strictly increasing file numbers, so no file appears twice. */
  predicate FilesIncrease(r: seq<Part>)
  {
    forall a, b :: 0 <= a < b < |r| ==> r[a].file < r[b].file
  }

  /** Fragments of a piece are in strictly increasing file order. */
  lemma {:induction false} PieceFragsOrdered(files: seq<FileEntry>, j: nat, ps: int, pl: nat)
    ensures FilesIncrease(PieceFrags(files, j, ps, pl))
    decreases |files| - j
  {
    if j < |files| {
      PieceFragsOrdered(files, j + 1, ps, pl);
      var rest := PieceFrags(files, j + 1, ps, pl);
      if Covers(files[j], ps, pl) {
        var r := [Frag(j, files[j], ps, pl)] + rest;
        assert r == PieceFrags(files, j, ps, pl);
        assert forall k :: 1 <= k < |r| ==> r[k] == rest[k - 1] && r[k].file > j;
        forall a, b | 0 <= a < b < |r|
          ensures r[a].file < r[b].file
        {
          if a > 0 {
            assert r[a] == rest[a - 1] && r[b] == rest[b - 1];
          }
        }
      } else {
        assert rest == PieceFrags(files, j, ps, pl);
      }
    }
  }

  // ------------------------------------------------------------ the layout

  /** The files follow each other without gaps, from byte 0 (how a torrent lays them out). */
  ghost predicate Contiguous(files: seq<FileEntry>)
  {
    && (|files| > 0 ==> files[0].offset == 0)
    && forall k, m {:trigger files[k], files[m]} :: 0 <= k && m == k + 1 && m < |files| ==>
         files[m].offset == files[k].offset + files[k].length
  }

  /** Where the concatenation of all files ends. */
  function End(files: seq<FileEntry>): nat
  {
    if files == [] then 0 else files[|files| - 1].offset + files[|files| - 1].length
  }

  /** Where file `j` starts; past the last file, the end. */
  function Start(files: seq<FileEntry>, j: nat): nat
  {
    if j < |files| then files[j].offset else End(files)
  }

  function Clamp(x: int, lo: int, hi: int): int
  {
    if x < lo then lo else if x > hi then hi else x
  }

  /** How many bytes of the torrent fall in the piece starting at `ps`: a full piece, or what is left for the last one. */
  function PieceSize(files: seq<FileEntry>, ps: int, pl: nat): nat
  {
    Clamp(End(files) - ps, 0, pl)
  }

  /** `F` covers bytes `lo .. hi` of the piece: each fragment starts where the previous one ended. */
  predicate Tiles(F: seq<Part>, lo: int, hi: int)
  {
    if F == [] then lo == hi else F[0].from == lo && F[0].from <= F[0].to && Tiles(F[1..], F[0].to, hi)
  }

  lemma {:induction false} TilesBounds(F: seq<Part>, lo: int, hi: int)
    requires Tiles(F, lo, hi)
    ensures lo <= hi
    ensures forall k :: 0 <= k < |F| ==> lo <= F[k].from <= F[k].to <= hi
  {
    if F != [] {
      TilesBounds(F[1..], F[0].to, hi);
      assert forall k :: 1 <= k < |F| ==> F[k] == F[1..][k - 1];
    }
  }

  /**
   * With contiguous files, the fragments from file `j` on cover the piece
   * from where file `j` starts (clamped to the piece) to where the files end.
   */
  lemma {:induction false} PieceFragsTile(files: seq<FileEntry>, j: nat, ps: int, pl: nat)
    requires Contiguous(files) && j <= |files|
    ensures Tiles(PieceFrags(files, j, ps, pl), Clamp(Start(files, j) - ps, 0, pl), Clamp(End(files) - ps, 0, pl))
    decreases |files| - j
  {
    if j < |files| {
      PieceFragsTile(files, j + 1, ps, pl);
      StartNext(files, j);
      PieceFragsTileStep(files, j, ps, pl, Clamp(End(files) - ps, 0, pl));
    }
  }

  lemma PieceFragsTileStep(files: seq<FileEntry>, j: nat, ps: int, pl: nat, hi: int)
    requires j < |files| && Start(files, j + 1) == files[j].offset + files[j].length
    requires Tiles(PieceFrags(files, j + 1, ps, pl), Clamp(Start(files, j + 1) - ps, 0, pl), hi)
    ensures Tiles(PieceFrags(files, j, ps, pl), Clamp(Start(files, j) - ps, 0, pl), hi)
  {
    var f, rest := files[j], PieceFrags(files, j + 1, ps, pl);
    var own := if Covers(f, ps, pl) then [Frag(j, f, ps, pl)] else [];
    TileCons(j, f, ps, pl, rest, hi);
    assert PieceFrags(files, j, ps, pl) == own + rest;
  }

  lemma StartNext(files: seq<FileEntry>, j: nat)
    requires Contiguous(files) && j < |files|
    ensures Start(files, j + 1) == files[j].offset + files[j].length
  {
    if j + 1 < |files| {
      assert files[j + 1].offset == files[j].offset + files[j].length;
    }
  }

  /** A file's fragment, if it has one, tiles the piece from the file's start to its end (clamped). */
  lemma TileCons(j: nat, f: FileEntry, ps: int, pl: nat, rest: seq<Part>, hi: int)
    requires Tiles(rest, Clamp(f.offset + f.length - ps, 0, pl), hi)
    ensures Tiles((if Covers(f, ps, pl) then [Frag(j, f, ps, pl)] else []) + rest, Clamp(f.offset - ps, 0, pl), hi)
  {
    if Covers(f, ps, pl) {
      var t := Frag(j, f, ps, pl);
      var r := [t] + rest;
      assert r[0] == t && r[1..] == rest;
    } else {
      assert [] + rest == rest;
    }
  }

  /** Every fragment of the table lies inside the piece's own bytes. */
  lemma PieceFragsInPiece(files: seq<FileEntry>, ps: nat, pl: nat)
    requires Contiguous(files) && PieceFrags(files, 0, ps, pl) != []
    ensures var F := PieceFrags(files, 0, ps, pl);
            Tiles(F, 0, PieceSize(files, ps, pl))
            && forall k :: 0 <= k < |F| ==> F[k].to <= PieceSize(files, ps, pl)
  {
    PieceFragsTile(files, 0, ps, pl);
    var F := PieceFrags(files, 0, ps, pl);
    FirstFragStartsPiece(files, ps, pl);
    TilesBounds(F, 0, PieceSize(files, ps, pl));
  }

  /** The files start at byte 0 of the torrent, so the first fragment of any piece starts at the piece's byte 0. */
  lemma FirstFragStartsPiece(files: seq<FileEntry>, ps: nat, pl: nat)
    requires Contiguous(files) && PieceFrags(files, 0, ps, pl) != []
    ensures Clamp(Start(files, 0) - ps, 0, pl) == 0
  {
    assert |files| > 0;
  }

  lemma {:induction false} PieceFragsAreCovers(files: seq<FileEntry>, j: nat, ps: int, pl: nat, k: nat)
    requires k < |PieceFrags(files, j, ps, pl)|
    ensures var t := PieceFrags(files, j, ps, pl)[k];
            t.file < |files| && Covers(files[t.file], ps, pl) && t == Frag(t.file, files[t.file], ps, pl)
    decreases |files| - j
  {
    if j < |files| {
      if Covers(files[j], ps, pl) && k == 0 {
      } else {
        var k' := if Covers(files[j], ps, pl) then k - 1 else k;
        PieceFragsAreCovers(files, j + 1, ps, pl, k');
      }
    }
  }

  // -------------------------------------------------------------- the files

  /** `file.write(offset, data)`: overwrite from `offset`, filling a gap with zeros and growing the file. */
  function Overlay(content: Bytes, offset: nat, data: Bytes): (r: Bytes)
    ensures |r| >= offset + |data|
    ensures r[offset..offset + |data|] == data
  {
    var head := if offset <= |content| then content[..offset] else content + Zeros(offset - |content|);
    var tail := if offset + |data| < |content| then content[offset + |data|..] else [];
    assert (head + data + tail)[offset..offset + |data|] == data;
    head + data + tail
  }

  function Contents(disk: map<nat, Bytes>, f: nat): Bytes
  {
    if f in disk then disk[f] else []
  }

  // ------------------------------------------------------------ write

  datatype StorageError =
    | NoTargets          // `no targets for the given index?`
    | NoFileMatches      // `no file matching the requested range?`
    | TypeError          // `targets.filter` / `targets.length` on a piece with no entry
    | Destroyed          // `Storage destroyed`, or a handle already closed
    | ShortRead          // the file is shorter than the bytes asked for

  datatype WriteOutcome = Written | WriteFailed(error: StorageError)

  /** Each fragment in turn gets `buffer.slice(from, to)` at its file offset. */
  function WriteAll(disk: map<nat, Bytes>, F: seq<Part>, buffer: Bytes): (r: map<nat, Bytes>)
    ensures forall f :: f in disk ==> f in r
    decreases F
  {
    if F == [] then disk
    else
      var t := F[0];
      WriteAll(disk[t.file := Overlay(Contents(disk, t.file), t.offset, Slice(buffer, t.from, t.to))], F[1..], buffer)
  }

  /** A file that no fragment names keeps its contents. */
  lemma {:induction false} WriteAllOther(disk: map<nat, Bytes>, F: seq<Part>, buffer: Bytes, f: nat)
    requires forall k :: 0 <= k < |F| ==> F[k].file != f
    ensures (f in WriteAll(disk, F, buffer) <==> f in disk)
    ensures f in disk ==> WriteAll(disk, F, buffer)[f] == disk[f]
    decreases F
  {
    if F != [] {
      var t := F[0];
      assert forall k :: 0 <= k < |F[1..]| ==> F[1..][k] == F[k + 1];
      WriteAllOther(disk[t.file := Overlay(Contents(disk, t.file), t.offset, Slice(buffer, t.from, t.to))], F[1..], buffer, f);
    }
  }

  /** Fragment `t` of the store holds bytes `from .. to` of `buffer`. */
  ghost predicate HoldsOne(disk: map<nat, Bytes>, t: Part, buffer: Bytes)
  {
    && t.file in disk && t.from <= t.to <= |buffer|
    && t.offset + (t.to - t.from) <= |disk[t.file]|
    && disk[t.file][t.offset..t.offset + (t.to - t.from)] == buffer[t.from..t.to]
  }

  ghost predicate Holds(disk: map<nat, Bytes>, F: seq<Part>, buffer: Bytes)
  {
    forall k :: 0 <= k < |F| ==> HoldsOne(disk, F[k], buffer)
  }

  /** After the writes, every fragment holds its slice of the buffer (no two fragments share a file). */
  lemma {:induction false} WriteAllHolds(disk: map<nat, Bytes>, F: seq<Part>, buffer: Bytes)
    requires forall a, b :: 0 <= a < b < |F| ==> F[a].file < F[b].file
    requires forall k :: 0 <= k < |F| ==> F[k].from <= F[k].to <= |buffer|
    ensures Holds(WriteAll(disk, F, buffer), F, buffer)
    decreases F
  {
    if F != [] {
      var t := F[0];
      var d' := disk[t.file := Overlay(Contents(disk, t.file), t.offset, Slice(buffer, t.from, t.to))];
      var rest := F[1..];
      assert forall k :: 0 <= k < |rest| ==> rest[k] == F[k + 1];
      WriteAllHolds(d', rest, buffer);
      WriteAllOther(d', rest, buffer, t.file);
      assert HoldsOne(WriteAll(d', rest, buffer), t, buffer);
      forall k | 0 <= k < |F|
        ensures HoldsOne(WriteAll(disk, F, buffer), F[k], buffer)
      {
        if k > 0 {
          assert F[k] == rest[k - 1];
        }
      }
    }
  }

  // ------------------------------------------------------------- read

  /** A ranged read cuts an overlapping part to `rangeFrom .. rangeTo`, moving its file offset along. */
  function Clip(t: Part, lo: nat, hi: nat): (c: Part)
    requires lo <= hi && t.to > lo && t.from < hi
    ensures c.file == t.file
    ensures c.from == (if t.from < lo then lo else t.from)
    ensures c.to == (if t.to > hi then hi else t.to)
    ensures c.offset == t.offset + (c.from - t.from)
  {
    var to := if t.to > hi then hi else t.to;
    if t.from < lo then Fragment(t.file, lo, to, t.offset + (lo - t.from)) else Fragment(t.file, t.from, to, t.offset)
  }

  /** `targets.filter(target => target.to > rangeFrom && target.from < rangeTo)`. */
  function Filter(F: seq<Part>, lo: nat, hi: nat): (r: seq<Part>)
    ensures forall k :: 0 <= k < |r| ==> r[k].to > lo && r[k].from < hi
  {
    if F == [] then []
    else (if F[0].to > lo && F[0].from < hi then [F[0]] else []) + Filter(F[1..], lo, hi)
  }

  /** The parts a ranged read goes over: those that overlap the range, each clipped to it. */
  function ClipAll(F: seq<Part>, lo: nat, hi: nat): seq<Part>
    requires lo <= hi
  {
    if F == [] then []
    else (if F[0].to > lo && F[0].from < hi then [Clip(F[0], lo, hi)] else []) + ClipAll(F[1..], lo, hi)
  }

  datatype ReadOutcome = Data(data: Bytes) | ReadFailed(error: StorageError)

  /** What opening and reading one part gives: no such file, an error, or its bytes. */
  datatype PartRead = Missing | Failed(error: StorageError) | Got(bytes: Bytes)

  /** `target.openRead(...)` then `file.read(offset, to - from, ...)`. */
  function ReadPart(disk: map<nat, Bytes>, destroyed: bool, t: Part): (r: PartRead)
    ensures r.Got? ==> |r.bytes| == t.to - t.from
  {
    if t.file !in disk then Missing
    else if destroyed then Failed(Destroyed)
    else if t.offset + (t.to - t.from) > |disk[t.file]| then Failed(ShortRead)
    else Got(disk[t.file][t.offset..t.offset + (t.to - t.from)])
  }

  /**
   * The `next` loop from part `F[0]` on, the buffers read so far joined in
   * `acc`: a file that does not exist ends the whole read with an empty
   * buffer; an error ends it with that error.
   */
  function ReadAll(disk: map<nat, Bytes>, destroyed: bool, F: seq<Part>, acc: Bytes): ReadOutcome
  {
    if F == [] then Data(acc)
    else
      var got := ReadPart(disk, destroyed, F[0]);
      if got.Missing? then Data([])
      else if got.Failed? then ReadFailed(got.error)
      else ReadAll(disk, destroyed, F[1..], acc + got.bytes)
  }

  /** A range argument: `offset` and `length`, 0 standing for a missing or falsy field. */
  datatype RangeArg = RangeArg(offset: nat, length: nat)

  function RangeFrom(r: RangeArg): nat { r.offset }

  function RangeTo(r: RangeArg, pl: nat): nat
  {
    if r.length > 0 then r.offset + r.length else pl
  }

  // ------------------------------------------------ reading what was written

  lemma HoldsSplit(disk: map<nat, Bytes>, F: seq<Part>, buffer: Bytes)
    requires Holds(disk, F, buffer) && F != []
    ensures HoldsOne(disk, F[0], buffer) && Holds(disk, F[1..], buffer)
  {
    assert forall k :: 0 <= k < |F| - 1 ==> F[1..][k] == F[k + 1];
  }

  /** Clipping what the filter kept is clipping the whole list: the filter only drops parts the clip skips. */
  lemma {:induction false} ClipAllFilter(F: seq<Part>, lo: nat, hi: nat)
    requires lo <= hi
    ensures ClipAll(Filter(F, lo, hi), lo, hi) == ClipAll(F, lo, hi)
  {
    if F != [] {
      ClipAllFilter(F[1..], lo, hi);
      var t := F[0];
      if t.to > lo && t.from < hi {
        var G := [t] + Filter(F[1..], lo, hi);
        assert G[0] == t && G[1..] == Filter(F[1..], lo, hi);
      } else {
        assert Filter(F, lo, hi) == Filter(F[1..], lo, hi);
        assert ClipAll(F, lo, hi) == ClipAll(F[1..], lo, hi);
      }
    }
  }

  /** One step of `ReadAll` over a list that starts with `c`. */
  lemma ReadAllUnfold(disk: map<nat, Bytes>, destroyed: bool, c: Part, R: seq<Part>, acc: Bytes)
    ensures ReadAll(disk, destroyed, [c] + R, acc)
            == var got := ReadPart(disk, destroyed, c);
               if got.Missing? then Data([])
               else if got.Failed? then ReadFailed(got.error)
               else ReadAll(disk, destroyed, R, acc + got.bytes)
  {
    assert ([c] + R)[0] == c && ([c] + R)[1..] == R;
  }

  function ClippedBytes(buffer: Bytes, t: Part, rlo: nat, rhi: nat): Bytes
    requires t.to <= |buffer|
  {
    if t.to > rlo && t.from < rhi then
      var a := if t.from < rlo then rlo else t.from;
      var b := if t.to > rhi then rhi else t.to;
      if a <= b then buffer[a..b] else []
    else []
  }

  /** Reading the clipped part of a fragment that holds its slice gives the clipped slice. */
  lemma ClipHolds(disk: map<nat, Bytes>, t: Part, buffer: Bytes, rlo: nat, rhi: nat)
    requires HoldsOne(disk, t, buffer) && rlo <= rhi && t.to > rlo && t.from < rhi
    ensures var c := Clip(t, rlo, rhi);
            c.file in disk && c.offset + (c.to - c.from) <= |disk[c.file]|
            && disk[c.file][c.offset..c.offset + (c.to - c.from)] == ClippedBytes(buffer, t, rlo, rhi)
  {
    var c := Clip(t, rlo, rhi);
    var d := disk[t.file];
    var a, b := c.from - t.from, c.to - t.from;
    assert c.offset == t.offset + a && c.offset + (c.to - c.from) == t.offset + b;
    SubSlice(d, t.offset, t.offset + (t.to - t.from), a, b);
    SubSlice(buffer, t.from, t.to, a, b);
    assert ClippedBytes(buffer, t, rlo, rhi) == buffer[c.from..c.to];
  }

  /** One step of the ranged read over a fragment that holds its slice. */
  lemma ReadAllStep(disk: map<nat, Bytes>, F: seq<Part>, buffer: Bytes, rlo: nat, rhi: nat, acc: Bytes)
    requires F != [] && Holds(disk, F, buffer) && rlo <= rhi
    ensures ReadAll(disk, false, ClipAll(F, rlo, rhi), acc)
            == ReadAll(disk, false, ClipAll(F[1..], rlo, rhi), acc + ClippedBytes(buffer, F[0], rlo, rhi))
  {
    HoldsSplit(disk, F, buffer);
    var t := F[0];
    var R := ClipAll(F[1..], rlo, rhi);
    if t.to > rlo && t.from < rhi {
      ClipHolds(disk, t, buffer, rlo, rhi);
      ReadAllUnfold(disk, false, Clip(t, rlo, rhi), R, acc);
    } else {
      assert ClipAll(F, rlo, rhi) == R;
      assert acc + ClippedBytes(buffer, t, rlo, rhi) == acc;
    }
  }

  /** The clipped slice of the first fragment joins the clamped rest into the clamped whole. */
  lemma JoinClamped(buffer: Bytes, acc: Bytes, t: Part, hi: nat, rlo: nat, rhi: nat)
    requires t.to <= hi <= |buffer| && rlo <= rhi
    ensures acc + ClippedBytes(buffer, t, rlo, rhi) + buffer[Clamp(rlo, t.to, hi)..Clamp(rhi, t.to, hi)]
            == acc + buffer[Clamp(rlo, t.from, hi)..Clamp(rhi, t.from, hi)]
  {
    var a, b := Clamp(rlo, t.from, hi), Clamp(rhi, t.from, hi);
    var m, n := Clamp(rlo, t.to, hi), Clamp(rhi, t.to, hi);
    var x := ClippedBytes(buffer, t, rlo, rhi);
    if t.to > rlo && t.from < rhi {
      if rhi >= t.to {
        assert x == buffer[a..m];
        assert buffer[a..m] + buffer[m..n] == buffer[a..b];
      } else {
        assert x == buffer[a..b] && m == n;
      }
      assert acc + x + buffer[m..n] == acc + (x + buffer[m..n]);
    } else if t.to <= rlo {
      assert m == a && n == b && x == [];
    } else {
      assert m == n && a == b && x == [];
    }
  }

  /**
   * Over fragments that tile `lo .. hi` and hold a buffer's bytes, a read
   * clipped to `rlo .. rhi` gives the buffer's bytes `rlo .. rhi`, both
   * clamped to `lo .. hi`, after what was already read.
   */
  lemma {:induction false} ReadAllTiled(disk: map<nat, Bytes>, F: seq<Part>, buffer: Bytes, lo: nat, hi: nat,
                                        rlo: nat, rhi: nat, acc: Bytes)
    requires Tiles(F, lo, hi) && Holds(disk, F, buffer) && lo <= hi <= |buffer| && rlo <= rhi
    ensures ReadAll(disk, false, ClipAll(F, rlo, rhi), acc) == Data(acc + buffer[Clamp(rlo, lo, hi)..Clamp(rhi, lo, hi)])
    decreases F
  {
    TilesBounds(F, lo, hi);
    if F == [] {
      assert acc + buffer[lo..lo] == acc;
    } else {
      var t := F[0];
      assert lo == t.from <= t.to <= hi;
      HoldsSplit(disk, F, buffer);
      ReadAllStep(disk, F, buffer, rlo, rhi, acc);
      ReadAllTiled(disk, F[1..], buffer, t.to, hi, rlo, rhi, acc + ClippedBytes(buffer, t, rlo, rhi));
      JoinClamped(buffer, acc, t, hi, rlo, rhi);
    }
  }

  /** Over fragments that tile `lo .. hi` and hold a buffer's bytes, a whole read gives bytes `lo .. hi`. */
  lemma {:induction false} ReadAllWhole(disk: map<nat, Bytes>, F: seq<Part>, buffer: Bytes, lo: nat, hi: nat, acc: Bytes)
    requires Tiles(F, lo, hi) && Holds(disk, F, buffer) && lo <= hi <= |buffer|
    ensures ReadAll(disk, false, F, acc) == Data(acc + buffer[lo..hi])
    decreases F
  {
    TilesBounds(F, lo, hi);
    if F == [] {
      assert acc + buffer[lo..lo] == acc;
    } else {
      var t := F[0];
      HoldsSplit(disk, F, buffer);
      ReadAllUnfold(disk, false, t, F[1..], acc);
      assert F == [t] + F[1..];
      ReadAllWhole(disk, F[1..], buffer, t.to, hi, acc + buffer[lo..t.to]);
      assert buffer[lo..t.to] + buffer[t.to..hi] == buffer[lo..hi];
      assert acc + buffer[lo..t.to] + buffer[t.to..hi] == acc + buffer[lo..hi];
    }
  }

  lemma {:induction false} FilterSub(F: seq<Part>, lo: nat, hi: nat)
    ensures forall k :: 0 <= k < |Filter(F, lo, hi)| ==> Filter(F, lo, hi)[k] in F
  {
    if F != [] {
      FilterSub(F[1..], lo, hi);
    }
  }

  lemma {:induction false} FilterNone(F: seq<Part>, lo: nat, hi: nat)
    requires forall k :: 0 <= k < |F| ==> F[k].to <= lo
    ensures Filter(F, lo, hi) == []
  {
    if F != [] {
      assert forall k :: 0 <= k < |F| - 1 ==> F[1..][k] == F[k + 1];
      FilterNone(F[1..], lo, hi);
    }
  }

  /** A fragment run that tiles past `x` always has a fragment overlapping a range starting at `x`. */
  lemma {:induction false} TilesFilterNonEmpty(F: seq<Part>, a: int, b: int, x: nat, y: nat)
    requires Tiles(F, a, b) && a <= x < b && x < y
    ensures Filter(F, x, y) != []
    decreases F
  {
    var t := F[0];
    if !(t.to > x) {
      TilesFilterNonEmpty(F[1..], t.to, b, x, y);
    }
  }

  // ------------------------------------------------ one file over its pieces

  /** A non-empty file's fragment is non-empty and lies inside the piece. */
  lemma FragNonEmpty(i: nat, f: FileEntry, ps: int, pl: nat)
    requires Covers(f, ps, pl) && f.length > 0 && pl > 0
    ensures 0 <= Frag(i, f, ps, pl).from < Frag(i, f, ps, pl).to <= pl
  {
  }

  /** A file's fragments in consecutive pieces continue each other in the file. */
  lemma FragsAdjacent(i: nat, f: FileEntry, ps: int, pl: nat)
    requires Covers(f, ps, pl) && Covers(f, ps + pl, pl)
    ensures Frag(i, f, ps, pl).to == pl && Frag(i, f, ps + pl, pl).from == 0
    ensures Frag(i, f, ps + pl, pl).offset == Frag(i, f, ps, pl).offset + (Frag(i, f, ps, pl).to - Frag(i, f, ps, pl).from)
  {
  }

  /** The bytes of file `f` held by the `n` pieces from the one starting at `ps` on. */
  function FileBytesIn(f: FileEntry, ps: int, pl: nat, n: nat): nat
    decreases n
  {
    if n == 0 then 0
    else (if Covers(f, ps, pl) then Frag(0, f, ps, pl).to - Frag(0, f, ps, pl).from else 0) + FileBytesIn(f, ps + pl, pl, n - 1)
  }

  /** The `n` pieces from `ps` on hold exactly the part of the file that falls between their bounds. */
  lemma {:induction false} FileBytesInSpan(f: FileEntry, ps: int, pl: nat, n: nat)
    ensures FileBytesIn(f, ps, pl, n)
            == Clamp(f.offset + f.length, ps, ps + n * pl) - Clamp(f.offset, ps, ps + n * pl)
    decreases n
  {
    if n > 0 {
      FileBytesInSpan(f, ps + pl, pl, n - 1);
      assert ps + pl + (n - 1) * pl == ps + n * pl;
      MulLe(0, n - 1, pl);
    }
  }

  /** The fragments of a file, over the source's piece range, add up to the file's length. */
  lemma FileBytesTotal(f: FileEntry, pl: nat)
    requires pl > 0
    ensures var first, last := f.offset / pl, (f.offset + f.length - 1) / pl;
            first <= last + 1 && FileBytesIn(f, PieceStart(first, pl), pl, last + 1 - first) == f.length
  {
    var first, last := f.offset / pl, (f.offset + f.length - 1) / pl;
    var fs, fe := f.offset, f.offset + f.length;
    FloorBounds(fs, pl);
    FloorBounds(fe - 1, pl);
    var a, b := first * pl, (last + 1) * pl;
    assert b == last * pl + pl;
    assert a <= fs <= fe <= b;
    assert b - a == (last + 1 - first) * pl;
    NonNegFactor(last + 1 - first, pl);
    var n: nat := last + 1 - first;
    assert a + n * pl == b;
    PieceStartIsProduct(first, pl);
    FileBytesInSpan(f, a, pl, n);
  }

  // ------------------------------------------------------- the table, built

  /** The table while file `i` is being added: pieces `first .. p - 1` already have its fragment. */
  ghost function Partial(files: seq<FileEntry>, i: nat, q: int, pl: nat, first: int, p: int): seq<Part>
    requires i < |files|
  {
    var qs := PieceStart(q, pl);
    PieceFrags(files[..i], 0, qs, pl) + (if first <= q < p && Covers(files[i], qs, pl) then [Frag(i, files[i], qs, pl)] else [])
  }

  /** The table holds `Partial` for every piece. */
  ghost predicate PartialTable(t: map<int, seq<Part>>, files: seq<FileEntry>, i: nat, pl: nat, first: int, p: int)
    requires i < |files|
  {
    && (forall q :: q in t <==> Partial(files, i, q, pl, first, p) != [])
    && (forall q :: q in t ==> t[q] == Partial(files, i, q, pl, first, p))
  }

  /** Pushing file `i`'s fragment onto piece `p` extends the table by that piece. */
  lemma PartialStep(t: map<int, seq<Part>>, files: seq<FileEntry>, i: nat, pl: nat, first: int, p: int)
    requires i < |files| && first <= p && Covers(files[i], PieceStart(p, pl), pl)
    requires PartialTable(t, files, i, pl, first, p)
    ensures PartialTable(t[p := (if p in t then t[p] else []) + [Frag(i, files[i], PieceStart(p, pl), pl)]], files, i, pl, first, p + 1)
  {
    var frag := Frag(i, files[i], PieceStart(p, pl), pl);
    var t' := t[p := (if p in t then t[p] else []) + [frag]];
    forall q
      ensures (q in t' <==> Partial(files, i, q, pl, first, p + 1) != [])
      ensures q in t' ==> t'[q] == Partial(files, i, q, pl, first, p + 1)
    {
      var before := PieceFrags(files[..i], 0, PieceStart(q, pl), pl);
      if q == p {
        assert Partial(files, i, q, pl, first, p) == before + [];
        assert Partial(files, i, q, pl, first, p + 1) == before + [frag];
        assert (if p in t then t[p] else []) == before;
      } else {
        assert Partial(files, i, q, pl, first, p + 1) == Partial(files, i, q, pl, first, p);
      }
    }
  }

  /** One pass of the `forEach` body: push file `i`'s fragment onto each piece it spans. */
  method AddFile(table: map<int, seq<Part>>, files: seq<FileEntry>, i: nat, pl: nat) returns (t: map<int, seq<Part>>)
    requires pl > 0 && i < |files| && IsTable(table, files[..i], pl)
    ensures IsTable(t, files[..i + 1], pl)
  {
    var f := files[i];
    var fileStart, fileEnd := f.offset, f.offset + f.length;
    var first, last := fileStart / pl, (fileEnd - 1) / pl;
    t := table;
    var p := first;
    while p <= last
      invariant p == first || first < p <= last + 1
      invariant PartialTable(t, files, i, pl, first, p)
    {
      var pieceStart := p * pl;
      assert pieceStart == PieceStart(p, pl) && Covers(f, pieceStart, pl) by {
        CoversRange(f, p, pl);
        PieceStartIsProduct(p, pl);
      }
      var frag := Frag(i, f, pieceStart, pl);
      PartialStep(t, files, i, pl, first, p);
      var cur := if p in t then t[p] else [];
      t := t[p := cur + [frag]];
      p := p + 1;
    }
    PartialDone(t, files, i, pl, first, p);
  }

  /** Once every piece the file spans has its fragment, the table is the table of one more file. */
  lemma PartialDone(t: map<int, seq<Part>>, files: seq<FileEntry>, i: nat, pl: nat, first: int, p: int)
    requires pl > 0 && i < |files| && PartialTable(t, files, i, pl, first, p)
    requires first == files[i].offset / pl
    requires p == first || first < p
    requires p > (files[i].offset + files[i].length - 1) / pl
    ensures IsTable(t, files[..i + 1], pl)
  {
    forall q
      ensures (q in t <==> PieceFrags(files[..i + 1], 0, PieceStart(q, pl), pl) != [])
      ensures q in t ==> t[q] == PieceFrags(files[..i + 1], 0, PieceStart(q, pl), pl)
    {
      PartialDoneAt(t, files, i, pl, first, p, q);
    }
  }

  lemma PartialDoneAt(t: map<int, seq<Part>>, files: seq<FileEntry>, i: nat, pl: nat, first: int, p: int, q: int)
    requires pl > 0 && i < |files| && PartialTable(t, files, i, pl, first, p)
    requires first == files[i].offset / pl
    requires p == first || first < p
    requires p > (files[i].offset + files[i].length - 1) / pl
    ensures q in t <==> PieceFrags(files[..i + 1], 0, PieceStart(q, pl), pl) != []
    ensures q in t ==> t[q] == PieceFrags(files[..i + 1], 0, PieceStart(q, pl), pl)
  {
    var f := files[i];
    assert files[..i + 1] == files[..i] + [f];
    PieceFragsSnoc(files[..i], f, 0, PieceStart(q, pl), pl);
    CoversRange(f, q, pl);
    assert Partial(files, i, q, pl, first, p) == PieceFrags(files[..i + 1], 0, PieceStart(q, pl), pl);
  }

  /** What the table's entries satisfy: non-empty, ordered fragments inside the piece, files in order. */
  predicate TableOk(table: map<int, seq<Part>>, pl: nat)
  {
    forall p :: p in table ==> table[p] != [] && FilesIncrease(table[p])
                               && forall k :: 0 <= k < |table[p]| ==> table[p][k].to <= pl
  }

  lemma TableIsOk(table: map<int, seq<Part>>, files: seq<FileEntry>, pl: nat)
    requires IsTable(table, files, pl)
    ensures TableOk(table, pl)
  {
    forall p | p in table
      ensures FilesIncrease(table[p])
    {
      PieceFragsOrdered(files, 0, PieceStart(p, pl), pl);
    }
  }

  // ------------------------------------------------------------ reads, specified

  /**
   * What `read(index, range)` calls back with: an empty range gives an
   * empty buffer; a piece without an entry throws when ranged (`filter`
   * of undefined) and errors otherwise; a range no fragment overlaps is an
   * error; else the fragments, clipped to the range, are read in order.
   */
  function ReadSpec(table: map<int, seq<Part>>, pl: nat, disk: map<nat, Bytes>, destroyed: bool,
                    index: int, range: Option<RangeArg>): ReadOutcome
    requires TableOk(table, pl)
  {
    if range.Some? && RangeFrom(range.value) == RangeTo(range.value, pl) then Data([])
    else if index !in table then ReadFailed(if range.Some? then TypeError else NoTargets)
    else if range.None? then ReadAll(disk, destroyed, table[index], [])
    else
      var lo, hi := RangeFrom(range.value), RangeTo(range.value, pl);
      var F := Filter(table[index], lo, hi);
      if F == [] then ReadFailed(NoFileMatches)
      else
        FilterSub(table[index], lo, hi);
        assert F[0] in table[index];
        ReadAll(disk, destroyed, ClipAll(F, lo, hi), [])
  }

  /**
   * With the files laid out back to back, writing a piece-sized buffer
   * over a piece's fragments and reading the whole piece gives the buffer.
   */
  lemma WriteThenRead(files: seq<FileEntry>, pl: nat, table: map<int, seq<Part>>, disk: map<nat, Bytes>,
                      index: nat, buffer: Bytes)
    requires Contiguous(files) && IsTable(table, files, pl) && TableOk(table, pl) && index in table
    requires |buffer| == PieceSize(files, PieceStart(index, pl), pl)
    ensures ReadSpec(table, pl, WriteAll(disk, table[index], buffer), false, index, None) == Data(buffer)
  {
    var F, d := table[index], WriteAll(disk, table[index], buffer);
    ReadSpecWhole(table, pl, d, false, index);
    assert ReadAll(d, false, F, []) == Data(buffer) by {
      TableEntry(table, files, pl, index);
      PieceFragsInPiece(files, PieceStart(index, pl), pl);
      WriteAllHolds(disk, F, buffer);
      ReadAllWhole(d, F, buffer, 0, |buffer|, []);
      assert [] + buffer[0..|buffer|] == buffer;
    }
  }

  lemma ReadSpecWhole(table: map<int, seq<Part>>, pl: nat, disk: map<nat, Bytes>, destroyed: bool, index: int)
    requires TableOk(table, pl) && index in table
    ensures ReadSpec(table, pl, disk, destroyed, index, None) == ReadAll(disk, destroyed, table[index], [])
  {
  }

  /**
   * A ranged read after the write: the bytes `offset .. offset + length`
   * of the piece (to its end when the length is 0), an empty buffer for an
   * empty range, and an error when the range starts past the piece.
   */
  lemma WriteThenReadRange(files: seq<FileEntry>, pl: nat, table: map<int, seq<Part>>, disk: map<nat, Bytes>,
                           index: nat, buffer: Bytes, range: RangeArg)
    requires Contiguous(files) && IsTable(table, files, pl) && TableOk(table, pl) && index in table
    requires |buffer| == PieceSize(files, PieceStart(index, pl), pl)
    ensures var lo, hi, ps := RangeFrom(range), RangeTo(range, pl), |buffer|;
            ReadSpec(table, pl, WriteAll(disk, table[index], buffer), false, index, Some(range))
            == if lo == hi then Data([])
               else if lo < ps then Data(buffer[lo..if hi < ps then hi else ps])
               else ReadFailed(NoFileMatches)
  {
    var F, d := table[index], WriteAll(disk, table[index], buffer);
    var lo, hi, ps := RangeFrom(range), RangeTo(range, pl), |buffer|;
    TableEntry(table, files, pl, index);
    PieceFragsInPiece(files, PieceStart(index, pl), pl);
    if lo != hi {
      if lo < ps {
        ReadSpecRanged(table, pl, d, false, index, range);
        TiledWriteThenRead(disk, F, buffer, lo, hi);
      } else {
        assert Filter(F, lo, hi) == [] by {
          TilesBounds(F, 0, ps);
          FilterNone(F, lo, hi);
        }
        ReadSpecNoMatch(table, pl, d, false, index, range);
      }
    }
  }

  lemma TableEntry(table: map<int, seq<Part>>, files: seq<FileEntry>, pl: nat, index: int)
    requires IsTable(table, files, pl) && index in table
    ensures table[index] == PieceFrags(files, 0, PieceStart(index, pl), pl) != []
  {
  }

  lemma ReadSpecNoMatch(table: map<int, seq<Part>>, pl: nat, disk: map<nat, Bytes>, destroyed: bool, index: int,
                        range: RangeArg)
    requires TableOk(table, pl) && index in table && RangeFrom(range) != RangeTo(range, pl)
    requires Filter(table[index], RangeFrom(range), RangeTo(range, pl)) == []
    ensures ReadSpec(table, pl, disk, destroyed, index, Some(range)) == ReadFailed(NoFileMatches)
  {
  }

  /** Over fragments that tile a buffer, a read of any range that starts inside it gives the bytes written there. */
  lemma TiledWriteThenRead(disk: map<nat, Bytes>, F: seq<Part>, buffer: Bytes, lo: nat, hi: nat)
    requires Tiles(F, 0, |buffer|) && FilesIncrease(F) && lo < |buffer| && lo < hi
    ensures var G, end := Filter(F, lo, hi), if hi < |buffer| then hi else |buffer|;
            G != [] && ReadAll(WriteAll(disk, F, buffer), false, ClipAll(G, lo, hi), []) == Data(buffer[lo..end])
  {
    var ps, end := |buffer|, if hi < |buffer| then hi else |buffer|;
    TilesBounds(F, 0, ps);
    TilesFilterNonEmpty(F, 0, ps, lo, hi);
    WriteAllHolds(disk, F, buffer);
    ReadAllTiled(WriteAll(disk, F, buffer), F, buffer, 0, ps, lo, hi, []);
    ClipAllFilter(F, lo, hi);
    assert [] + buffer[lo..end] == buffer[lo..end];
  }

  lemma ReadSpecRanged(table: map<int, seq<Part>>, pl: nat, disk: map<nat, Bytes>, destroyed: bool, index: int,
                       range: RangeArg)
    requires TableOk(table, pl) && index in table && RangeFrom(range) < RangeTo(range, pl)
    ensures var lo, hi := RangeFrom(range), RangeTo(range, pl);
            var F := Filter(table[index], lo, hi);
            ReadSpec(table, pl, disk, destroyed, index, Some(range))
            == if F == [] then ReadFailed(NoFileMatches) else ReadAll(disk, destroyed, ClipAll(F, lo, hi), [])
  {
  }

  /**
   * The store's own test torrent: one file of 36115 bytes in pieces of
   * 32768, so piece 1 holds 3347 bytes, and reading it from offset 3341
   * gives its last six bytes.
   */
  lemma TestPieceTail(table: map<int, seq<Part>>, disk: map<nat, Bytes>, buffer: Bytes)
    requires IsTable(table, [FileEntry(0, 36115)], 32768) && TableOk(table, 32768)
    requires |buffer| == 3347
    ensures 1 in table
    ensures ReadSpec(table, 32768, WriteAll(disk, table[1], buffer), false, 1, Some(RangeArg(3341, 0)))
            == Data(buffer[3341..])
  {
    var files := [FileEntry(0, 36115)];
    assert Covers(files[0], PieceStart(1, 32768), 32768);
    assert PieceFrags(files, 0, PieceStart(1, 32768), 32768) != [];
    WriteThenReadRange(files, 32768, table, disk, 1, buffer, RangeArg(3341, 0));
  }

  /** The parts the `next` loop reads: all targets, or each clipped when there is a range. */
  function Over(targets: seq<Part>, clip: Option<(nat, nat)>): seq<Part>
    requires clip.Some? ==> clip.value.0 <= clip.value.1
  {
    if clip.None? then targets else ClipAll(targets, clip.value.0, clip.value.1)
  }

  /** Target `i`, clipped as the loop clips it, heads what is left to read. */
  lemma OverStep(targets: seq<Part>, i: nat, clip: Option<(nat, nat)>, c: Part)
    requires i < |targets|
    requires clip.Some? ==> clip.value.0 <= clip.value.1
    requires clip.Some? ==> targets[i].to > clip.value.0 && targets[i].from < clip.value.1
    requires clip.None? ==> c == targets[i]
    requires clip.Some? ==> c == Clip(targets[i], clip.value.0, clip.value.1)
    ensures Over(targets[i..], clip) == [c] + Over(targets[i + 1..], clip)
  {
    assert targets[i..][0] == targets[i] && targets[i..][1..] == targets[i + 1..];
  }

  // ------------------------------------------------------------ the store

  /**
   * The object `storage(folder)(torrent)` returns: the fragment table,
   * built once, the files on disk and whether it was closed.
   */
  class Store {
    const pieceLength: nat
    const files: seq<FileEntry>
    const table: map<int, seq<Part>>
    var disk: map<nat, Bytes>
    var destroyed: bool

    ghost predicate Valid()
    {
      pieceLength > 0 && IsTable(table, files, pieceLength) && TableOk(table, pieceLength)
    }

    /** Builds `piecesMap` by walking the files in order; `disk` is what the folder already holds. */
    constructor (files: seq<FileEntry>, pieceLength: nat, disk: map<nat, Bytes>)
      requires pieceLength > 0
      ensures Valid()
      ensures this.files == files && this.pieceLength == pieceLength
      ensures this.disk == disk && !destroyed
    {
      var t: map<int, seq<Part>> := map[];
      var i := 0;
      while i < |files|
        invariant 0 <= i <= |files|
        invariant IsTable(t, files[..i], pieceLength)
      {
        t := AddFile(t, files, i, pieceLength);
        i := i + 1;
      }
      assert files[..|files|] == files;
      TableIsOk(t, files, pieceLength);
      this.pieceLength := pieceLength;
      this.files := files;
      this.table := t;
      this.disk := disk;
      this.destroyed := false;
    }

    /** `read(index, range, cb)`: what `cb` receives. */
    method Read(index: int, range: Option<RangeArg>) returns (r: ReadOutcome)
      requires TableOk(table, pieceLength)
      ensures r == ReadSpec(table, pieceLength, disk, destroyed, index, range)
    {
      var rangeFrom, rangeTo := 0, pieceLength;
      if range.Some? {
        rangeFrom := range.value.offset;
        rangeTo := if range.value.length > 0 then rangeFrom + range.value.length else pieceLength;
        if rangeFrom == rangeTo {
          return Data([]);
        }
      }
      if index !in table {
        return ReadFailed(if range.Some? then TypeError else NoTargets);
      }
      var targets := table[index];
      var clip: Option<(nat, nat)> := None;
      if range.Some? {
        targets := Filter(targets, rangeFrom, rangeTo);
        if |targets| == 0 {
          ReadSpecNoMatch(table, pieceLength, disk, destroyed, index, range.value);
          return ReadFailed(NoFileMatches);
        }
        assert rangeFrom < rangeTo by {
          FilterSub(table[index], rangeFrom, rangeTo);
          assert targets[0] in table[index];
        }
        clip := Some((rangeFrom, rangeTo));
        ReadSpecRanged(table, pieceLength, disk, destroyed, index, range.value);
      } else {
        ReadSpecWhole(table, pieceLength, disk, destroyed, index);
      }
      r := ReadTargets(targets, clip);
    }

    /** The `next` loop: read each target in turn, clipped to the range if there is one, and join the buffers. */
    method ReadTargets(targets: seq<Part>, clip: Option<(nat, nat)>) returns (r: ReadOutcome)
      requires clip.Some? ==> clip.value.0 <= clip.value.1
      requires clip.Some? ==> forall k :: 0 <= k < |targets| ==> targets[k].to > clip.value.0 && targets[k].from < clip.value.1
      ensures r == ReadAll(disk, destroyed, Over(targets, clip), [])
    {
      var buffers: seq<Bytes> := [];
      var i := 0;
      while i < |targets|
        invariant 0 <= i <= |targets|
        invariant ReadAll(disk, destroyed, Over(targets, clip), []) == ReadAll(disk, destroyed, Over(targets[i..], clip), Concat(buffers))
      {
        var target := targets[i];
        var from, to, offset := target.from, target.to, target.offset;
        if clip.Some? {
          if to > clip.value.1 {
            to := clip.value.1;
          }
          if from < clip.value.0 {
            offset := offset + (clip.value.0 - from);
            from := clip.value.0;
          }
        }
        var c: Part := Fragment(target.file, from, to, offset);
        OverStep(targets, i, clip, c);
        ReadAllUnfold(disk, destroyed, c, Over(targets[i + 1..], clip), Concat(buffers));
        var got := ReadPart(disk, destroyed, c);
        if got.Missing? {
          return Data([]);
        }
        if got.Failed? {
          return ReadFailed(got.error);
        }
        buffers := buffers + [got.bytes];
        assert Concat(buffers) == Concat(buffers[..|buffers| - 1]) + got.bytes;
        i := i + 1;
      }
      assert targets[|targets|..] == [];
      r := Data(Concat(buffers));
    }

    /**
     * `write(index, buffer, cb)`: each fragment gets its slice of the
     * buffer. On a closed store the first fragment's file cannot be opened,
     * so nothing is written.
     */
    method Write(index: nat, buffer: Bytes) returns (r: WriteOutcome)
      requires Valid()
      modifies this`disk
      ensures r.Written? <==> index in table && !destroyed
      ensures index !in table ==> r == WriteFailed(TypeError)
      ensures index in table && destroyed ==> r == WriteFailed(Destroyed)
      ensures disk == if r.Written? then WriteAll(old(disk), table[index], buffer) else old(disk)
    {
      if index !in table {
        return WriteFailed(TypeError);
      }
      if destroyed {
        return WriteFailed(Destroyed);
      }
      WriteTargets(table[index], buffer);
      r := Written;
    }

    /** The `next` loop of `write`: one fragment after the other. */
    method WriteTargets(targets: seq<Part>, buffer: Bytes)
      modifies this`disk
      ensures disk == WriteAll(old(disk), targets, buffer)
    {
      ghost var d0 := disk;
      var i := 0;
      while i < |targets|
        invariant 0 <= i <= |targets|
        invariant WriteAll(d0, targets, buffer) == WriteAll(disk, targets[i..], buffer)
      {
        var target := targets[i];
        assert targets[i..][1..] == targets[i + 1..];
        disk := disk[target.file := Overlay(Contents(disk, target.file), target.offset, Slice(buffer, target.from, target.to))];
        i := i + 1;
      }
    }

    /** `close(cb)`: the first call closes the store, later ones return at once. */
    method Close() returns (closedNow: bool)
      modifies this`destroyed
      ensures destroyed
      ensures closedNow == !old(destroyed)
    {
      if destroyed {
        return false;
      }
      destroyed := true;
      closedNow := true;
    }

    /** `remove(cb)`: with files, close the store and delete their folder. */
    method Remove()
      modifies this`disk, this`destroyed
      ensures |files| == 0 ==> disk == old(disk) && destroyed == old(destroyed)
      ensures |files| > 0 ==> disk == map[] && destroyed
    {
      if |files| == 0 {
        return;
      }
      var _ := Close();
      disk := map[];
    }
  }
}

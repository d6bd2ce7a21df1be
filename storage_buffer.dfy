/**
 * Write-through shadow buffers: while a piece write is in flight, reads of
 * that piece are served from the in-memory copy (`lib/storage-buffer.js`
 * over the file store, and `bufferify` in `engine.js` over the piece folder).
 *
 * The underlying stores here are synchronous: a write changes the files when
 * it is issued, and its callback is a separate step (`Written`), so the window
 * between the two is where the shadow copy answers reads.
 */
module StorageBuffer {
  import opened Wrappers
  import opened Bytes
  import Storage
  import FolderStore

  /** `mem[index].slice(offset, offset + (length || mem[index].length))`, or the whole copy when there is no range. */
  function ShadowSlice(m: Bytes, range: Option<Storage.RangeArg>): (r: Bytes)
    ensures range.None? ==> r == m
    ensures range.Some? && range.value.offset <= |m| ==>
              var rest := m[range.value.offset..];
              |r| == (if 0 < range.value.length < |rest| then range.value.length else |rest|)
              && r == rest[..|r|]
    ensures range.Some? && range.value.offset >= |m| ==> r == []
  {
    if range.None? then m
    else
      var offset := range.value.offset;
      var length := if range.value.length > 0 then range.value.length else |m|;
      Slice(m, offset, offset + length)
  }

  /**
   * Where the store would answer the same ranged read of the piece just
   * written, the shadow copy gives the same bytes; where the store fails
   * (the range starts past the piece), the shadow copy gives an empty buffer.
   */
  lemma ShadowMatchesStore(files: seq<Storage.FileEntry>, pl: nat, table: map<int, seq<Storage.Part>>,
                           disk: map<nat, Bytes>, index: nat, buffer: Bytes, range: Storage.RangeArg)
    requires Storage.Contiguous(files) && Storage.IsTable(table, files, pl) && Storage.TableOk(table, pl)
    requires index in table && |buffer| == Storage.PieceSize(files, Storage.PieceStart(index, pl), pl)
    ensures var s := Storage.ReadSpec(table, pl, Storage.WriteAll(disk, table[index], buffer), false, index, Some(range));
            && (s.Data? ==> ShadowSlice(buffer, Some(range)) == s.data)
            && (s.ReadFailed? ==> ShadowSlice(buffer, Some(range)) == [] && s.error == Storage.NoFileMatches)
  {
    Storage.WriteThenReadRange(files, pl, table, disk, index, buffer, range);
    SliceAsStoreRange(buffer, range, pl);
  }

  /** The shadow slice in the store's terms: empty for an empty range or one starting past the copy, else up to `rangeTo`. */
  lemma SliceAsStoreRange(m: Bytes, range: Storage.RangeArg, pl: nat)
    requires |m| <= pl
    ensures var lo, hi := Storage.RangeFrom(range), Storage.RangeTo(range, pl);
            ShadowSlice(m, Some(range)) == if lo == hi || lo >= |m| then [] else m[lo..if hi < |m| then hi else |m|]
  {
    var lo, hi := Storage.RangeFrom(range), Storage.RangeTo(range, pl);
    if lo < |m| && lo != hi {
      var end := if hi < |m| then hi else |m|;
      assert m[lo..end] == m[lo..][..end - lo];
    }
  }

  /** `lib/storage-buffer.js`: a shadow copy per piece whose write has not called back. */
  class ShadowStore {
    const store: Storage.Store
    var mem: map<nat, Bytes>
    /** Writes handed to the store whose callbacks are still to come, with what each will report. */
    var inFlight: seq<(nat, Storage.WriteOutcome)>

    ghost predicate Valid()
    {
      store.Valid()
    }

    constructor (store: Storage.Store)
      requires store.Valid()
      ensures Valid() && this.store == store && mem == map[] && inFlight == []
    {
      this.store := store;
      mem := map[];
      inFlight := [];
    }

    /** `read(index, range, cb)`: the shadow copy if there is one, else the store's own read with the same arguments. */
    method Read(index: nat, range: Option<Storage.RangeArg>) returns (r: Storage.ReadOutcome)
      requires Valid()
      ensures index in mem ==> r == Storage.Data(ShadowSlice(mem[index], range))
      ensures index !in mem ==> r == Storage.ReadSpec(store.table, store.pieceLength, store.disk, store.destroyed, index, range)
    {
      if index in mem {
        return Storage.Data(ShadowSlice(mem[index], range));
      }
      r := store.Read(index, range);
    }

    /** `write(index, buf, cb)`: keep the copy, then hand the buffer to the store. */
    method Write(index: nat, buf: Bytes)
      requires Valid()
      modifies this`mem, this`inFlight, store`disk
      ensures mem == old(mem)[index := buf]
      ensures |inFlight| == |old(inFlight)| + 1 && inFlight[..|old(inFlight)|] == old(inFlight)
      ensures inFlight[|old(inFlight)|].0 == index
      ensures var out := inFlight[|old(inFlight)|].1;
              && (out.Written? <==> index in store.table && !store.destroyed)
              && store.disk == (if out.Written? then Storage.WriteAll(old(store.disk), store.table[index], buf) else old(store.disk))
    {
      mem := mem[index := buf];
      var out := store.Write(index, buf);
      inFlight := inFlight + [(index, out)];
    }

    /** The store's callback for in-flight write `k`: the copy goes, whatever the outcome, and the outcome is passed on. */
    method Written(k: nat) returns (out: Storage.WriteOutcome)
      requires k < |inFlight|
      modifies this`mem, this`inFlight
      ensures out == old(inFlight[k]).1
      ensures mem == old(mem) - {old(inFlight[k]).0}
      ensures inFlight == old(inFlight[..k] + inFlight[k + 1..])
    {
      var index := inFlight[k].0;
      out := inFlight[k].1;
      mem := mem - {index};
      inFlight := inFlight[..k] + inFlight[k + 1..];
    }

    /** `close(cb)`: the store's own close. */
    method Close() returns (closedNow: bool)
      modifies store`destroyed
      ensures store.destroyed && closedNow == !old(store.destroyed)
    {
      closedNow := store.Close();
    }

    /** `remove(cb)`: the store's own remove. */
    method Remove()
      modifies store`disk, store`destroyed
      ensures |store.files| == 0 ==> store.disk == old(store.disk) && store.destroyed == old(store.destroyed)
      ensures |store.files| > 0 ==> store.disk == map[] && store.destroyed
    {
      store.Remove();
    }
  }

  /** `bufferify(store)` in `engine.js`, over the piece folder. */
  class Bufferified {
    const folder: FolderStore.Folder
    var mem: map<nat, Bytes>
    /** Pieces whose folder write has not called back yet, oldest first. */
    var inFlight: seq<nat>

    constructor (folder: FolderStore.Folder)
      ensures this.folder == folder && mem == map[] && inFlight == []
    {
      this.folder := folder;
      mem := map[];
      inFlight := [];
    }

    /** `read(index, cb)`: the shadow copy if there is one, else the piece file. */
    method Read(index: nat) returns (r: FolderStore.ReadResult)
      ensures index in mem ==> r == FolderStore.Found(mem[index])
      ensures index !in mem ==> r == FolderStore.Lookup(folder.disk, index)
    {
      if index in mem {
        return FolderStore.Found(mem[index]);
      }
      r := folder.Read(index);
    }

    method Write(index: nat, buffer: Bytes)
      modifies this`mem, this`inFlight, folder
      ensures mem == old(mem)[index := buffer]
      ensures inFlight == old(inFlight) + [index]
      ensures folder.disk == old(folder.disk)[FolderStore.Pad(index) := buffer]
    {
      mem := mem[index := buffer];
      folder.Write(index, buffer);
      inFlight := inFlight + [index];
    }

    /** The folder's callback for in-flight write `k`. */
    method Written(k: nat)
      requires k < |inFlight|
      modifies this`mem, this`inFlight
      ensures mem == old(mem) - {old(inFlight[k])}
      ensures inFlight == old(inFlight[..k] + inFlight[k + 1..])
    {
      mem := mem - {inFlight[k]};
      inFlight := inFlight[..k] + inFlight[k + 1..];
    }

    /** `destroy(cb)`: the folder's own destroy. */
    method Destroy()
      modifies folder
      ensures folder.disk == map[]
    {
      folder.Destroy();
    }
  }
}

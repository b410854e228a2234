/**
 The swap files of `swap.c`: 512 files of three pages each, used one page after the other.
 Swapping is transparent because a page is never stored twice in the same place, and because
 each store meets a window that holds something else.
 */
module Swap {
  import opened Common
  import opened FileWindow

  const SWAP_FILES_COUNT: nat := 512
  const PAGES_PER_FILE: nat := 3
  const SWAP_IDS: nat := SWAP_FILES_COUNT * PAGES_PER_FILE

  /** Where a page is kept. */
  function FileOf(id: nat): nat {
    id / 3
  }

  function PosOf(id: nat): nat {
    (id % 3) * PAGE_SIZE
  }

  /** Different ids never share a byte, and every id below 1536 has a place in its file, within the direct blocks. */
  lemma SlotsApart(id: nat, other: nat, bs: nat)
    requires id < SWAP_IDS && other < SWAP_IDS && BlockSize(bs)
    ensures FileOf(id) < SWAP_FILES_COUNT && PosOf(id) + PAGE_SIZE <= PAGES_PER_FILE * PAGE_SIZE <= 12 * bs
    ensures id != other ==>
      FileOf(id) != FileOf(other) || PosOf(id) + PAGE_SIZE <= PosOf(other) || PosOf(other) + PAGE_SIZE <= PosOf(id)
    ensures BlockStart(PosOf(id), PAGE_SIZE) == PosOf(id) && PosOf(id) / PAGE_SIZE == id % 3
  {
  }

  class Swap {
    const files: seq<File<byte>>
    var nextId: nat
    /** Every page that was ever unloaded, by id. */
    ghost var slots: seq<seq<byte>>

    ghost predicate FileOk(f: nat)
      reads this, files
      requires f < |files|
    {
      var file := files[f];
      && file.Valid() && file.size == PAGES_PER_FILE * PAGE_SIZE && file.Coherent()
      && (file.section != NO_SECTION ==> file.base == file.section * PAGE_SIZE && 3 * f + file.section < nextId)
    }

    ghost predicate Stored(id: nat)
      reads this, files
      requires FileOf(id) < |files|
    {
      var file := files[FileOf(id)];
      id < |slots| && PosOf(id) + PAGE_SIZE <= |file.data| && file.data[PosOf(id)..PosOf(id) + PAGE_SIZE] == slots[id]
    }

    ghost predicate Valid()
      reads this, files
    {
      && |files| == SWAP_FILES_COUNT
      && (forall f, g :: 0 <= f < g < |files| ==> files[f] != files[g])
      && nextId == |slots| <= SWAP_IDS
      && (forall f: nat :: f < |files| ==> FileOk(f))
      && (forall id: nat :: id < nextId ==> FileOf(id) < |files| && Stored(id))
    }

    /** `swap_init`: the files have just been opened. */
    constructor (sf: seq<File<byte>>)
      requires |sf| == SWAP_FILES_COUNT
      requires forall f, g :: 0 <= f < g < |sf| ==> sf[f] != sf[g]
      requires forall f :: 0 <= f < |sf| ==>
        sf[f].Valid() && sf[f].size == PAGES_PER_FILE * PAGE_SIZE && sf[f].section == NO_SECTION
      ensures Valid() && slots == [] && files == sf
    {
      files, nextId, slots := sf, 0, [];
    }

    /** `swap_unload`. */
    method Unload(page: Page) returns (id: nat)
      requires Valid() && nextId < SWAP_IDS
      modifies this, files
      ensures Valid() && id == old(nextId) && slots == old(slots) + [page]
    {
      id := nextId;
      assert FileOk(FileOf(id));
      SlotsApart(id, id, files[FileOf(id)].bs);
      StorePage(id, page);
      slots := slots + [page];
      nextId := nextId + 1;
      forall f: nat | f < |files| ensures FileOk(f) {
        assert f != FileOf(id) ==> old(FileOk(f));
      }
      forall i: nat | i < nextId ensures FileOf(i) < |files| && Stored(i) {
        SlotsApart(i, id, files[FileOf(id)].bs);
        assert i < id ==> old(Stored(i));
      }
    }

    /** `seek`, then `write`: the section is another than the one in the window, so the page reaches the disk. */
    method StorePage(id: nat, page: Page)
      requires |files| == SWAP_FILES_COUNT && id == nextId < SWAP_IDS && FileOf(id) < |files| && FileOk(FileOf(id))
      modifies files[FileOf(id)]
      ensures var file := files[FileOf(id)];
        && file.Valid() && file.Coherent() && file.section == id % 3 && file.base == PosOf(id)
        && PosOf(id) + PAGE_SIZE <= |old(file.data)|
        && file.data == Patch(old(file.data), PosOf(id), page)
    {
      var file := files[FileOf(id)];
      SlotsApart(id, id, file.bs);
      file.Seek(PosOf(id));
      var _ := file.WritePage(page);
    }

    /** `swap_load` gives back what was unloaded under the id, however often. */
    method Load(id: nat) returns (page: seq<byte>)
      requires Valid() && id < nextId
      modifies files
      ensures Valid() && page == slots[id]
    {
      assert FileOk(FileOf(id)) && Stored(id);
      page := LoadPage(id);
      forall f: nat | f < |files| ensures FileOk(f) {
        assert f != FileOf(id) ==> old(FileOk(f));
      }
      forall i: nat | i < nextId ensures FileOf(i) < |files| && Stored(i) {
        assert old(Stored(i));
      }
    }

    /** `seek`, then `read`. */
    method LoadPage(id: nat) returns (page: seq<byte>)
      requires |files| == SWAP_FILES_COUNT && id < nextId <= SWAP_IDS && FileOf(id) < |files| && FileOk(FileOf(id))
      requires PosOf(id) + PAGE_SIZE <= |files[FileOf(id)].data|
      modifies files[FileOf(id)]
      ensures var file := files[FileOf(id)];
        && file.data == old(file.data) && page == file.data[PosOf(id)..PosOf(id) + PAGE_SIZE]
        && file.Valid() && file.Coherent() && file.section == id % 3 && file.base == PosOf(id)
    {
      var file := files[FileOf(id)];
      SlotsApart(id, id, file.bs);
      PageStart(PosOf(id), file.bs);
      file.Seek(PosOf(id));
      assert !file.Stale(file.offset) && file.FirstTurn(PAGE_SIZE) == PAGE_SIZE;
      var n;
      n, page := file.Read(PAGE_SIZE);
    }
  }
}

/** The NVDIMM backend: a bump pointer in a file, and a new, larger file whenever the current one is full. */
module NvdimmGrowth {
  import opened SegmentIndex

  const PAGE := 4096
  const INITIAL_FACTOR := 8
  const INCREASE_LIMIT := 32 * 1024 * 1024 * 1024

  /** Where a chunk lies: the number of its file, and its place in it. */
  datatype Place = Place(file: nat, offset: nat, size: nat)

  /** Rounding up to a multiple of the request leaves room for it. */
  lemma RoundUp(n: nat, size: nat)
    requires n > 0 && size > 0
    ensures var m := if n % size != 0 then n + (size - n % size)
                                           else n; n <= m && size <= m && m < n + size && m % size == 0
  {
    if n < size { SmallMod(n, size); }
    if n % size != 0 { NextMultiple(n, size); }
  }

  lemma NextMultiple(n: nat, size: nat)
    requires size > 0
    ensures (n + (size - n % size)) % size == 0
  {
    var q := n / size;
    assert n + (size - n % size) == size * (q + 1);
    MultipleMod(size, q + 1);
  }

  class MemoryBackendNvdimm {
    var fileSize: nat
    var fileOffset: nat
    var chunks: nat
    /** History: files opened so far with their sizes, and every chunk ever placed. */
    ghost var files: seq<nat>
    ghost var placed: seq<Place>

    ghost predicate Valid()
      reads this
    {
      && fileOffset <= fileSize && fileOffset % PAGE == 0
      && (fileSize == 0 <==> files == [])
      && (files != [] ==> files[|files| - 1] == fileSize)
      && (forall i | 0 <= i < |placed| :: InFile(placed[i]))
      && (forall i, j | 0 <= i < j < |placed| :: Apart(placed[i], placed[j]))
    }

    /** Inside its file, on page boundaries, and below the bump pointer if the file is the current one. */
    ghost predicate InFile(p: Place)
      reads this
    {
      && p.file < |files| && p.offset + p.size <= files[p.file] && p.size > 0
      && p.offset % PAGE == 0 && p.size % PAGE == 0
      && (p.file == |files| - 1 ==> p.offset + p.size <= fileOffset)
    }

    static predicate Apart(p: Place, q: Place) {
      p.file != q.file || p.offset + p.size <= q.offset || q.offset + q.size <= p.offset
    }

    constructor ()
      ensures Valid() && files == [] && placed == [] && chunks == 0 && fileSize == 0 && fileOffset == 0
    {
      fileSize, fileOffset, chunks, files, placed := 0, 0, 0, [], [];
    }

    /**
      Opens the next file: eight requests at first, then twice the last file up to the limit, rounded up to whole
      requests.
     */
    method OpenNewFile(size: nat)
      requires Valid() && size > 0
      modifies this
      ensures Valid() && placed == old(placed) && chunks == old(chunks)
      ensures fileOffset == 0 && size <= fileSize && files == old(files) + [fileSize]
      ensures old(files) == [] ==> fileSize == size * INITIAL_FACTOR
      ensures old(files) != [] && 2 * old(fileSize) <= INCREASE_LIMIT ==>
                2 * old(fileSize) <= fileSize < 2 * old(fileSize) + size
      ensures old(files) != [] && 2 * old(fileSize) > INCREASE_LIMIT ==>
                INCREASE_LIMIT <= fileSize < INCREASE_LIMIT + size
      ensures fileSize % size == 0
    {
      var nextSize := fileSize;
      if nextSize == 0 {
        nextSize := size * INITIAL_FACTOR;
        MultipleMod(size, INITIAL_FACTOR);
      } else {
        nextSize := nextSize * 2;
        if nextSize > INCREASE_LIMIT { nextSize := INCREASE_LIMIT; }
        RoundUp(nextSize, size);
        if nextSize % size != 0 { nextSize := nextSize + (size - nextSize % size); }
      }
      ghost var before := files;
      fileSize := nextSize;
      fileOffset := 0;
      files := files + [nextSize];
      assert forall i | 0 <= i < |before| :: files[i] == before[i];
    }

    /** Places a chunk; the assertion that the file has room never fires. */
    method Allocate(size: nat) returns (ghost place: Place)
      requires Valid() && size > 0 && size % PAGE == 0
      modifies this
      ensures Valid() && placed == old(placed) + [place] && place.size == size && chunks == old(chunks) + 1
      ensures forall i | 0 <= i < |old(placed)| :: Apart(old(placed)[i], place)
      ensures place.file < |files| && place.offset + size <= files[place.file] && place.offset % PAGE == 0
      ensures place.file == |files| - 1 && fileOffset == place.offset + size
      ensures if old(fileOffset) + size <= old(fileSize) then files == old(files) && place.offset == old(fileOffset)
              else files == old(files) + [fileSize] && place.offset == 0
      ensures |files| > 1 && files != old(files) ==> fileSize < INCREASE_LIMIT + size
    {
      if fileOffset + size > fileSize { OpenNewFile(size); }
      var offset := fileOffset;
      MultiplesAdd(fileOffset, size, PAGE);
      fileOffset := fileOffset + size;
      assert fileOffset <= fileSize;
      chunks := chunks + 1;
      place := Place(|files| - 1, offset, size);
      placed := placed + [place];
    }
  }
}

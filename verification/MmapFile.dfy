/** src/mmap_file.cpp: a page-aligned window that slides over a growable file.
    The operating system's part is taken to succeed: `data` is the file, and a mapping is an address `begin` at
    which the bytes from `offset` on appear. */
module MmapFile {
  import opened Bytes

  function EffectiveWindowSize(fileSize: nat, windowOffset: nat, windowSize: nat): nat
    requires windowOffset <= fileSize
  {
    Min(windowSize, fileSize - windowOffset)
  }

  /** Where the page of a position starts. */
  function PageStart(at: nat, page: nat): (start: nat)
    requires page > 0
    ensures start <= at < start + page
  {
    at - at % page
  }

  /** The size of a window of whole pages for `size` bytes: a full page is followed by another one. */
  function PagesFor(size: nat, page: nat): (w: nat)
    requires page > 0
    ensures size < w <= size + page
  {
    size + (page - size % page)
  }

  class MmapFile {
    const pageSize: nat
    var data: array<byte>
    var fileSize: nat
    var offset: nat
    var windowSize: nat
    var begin: nat

    ghost predicate Valid()
      reads this
    {
      && pageSize > 0
      && fileSize == data.Length
      && offset <= fileSize
      && offset % pageSize == 0 && windowSize % pageSize == 0
      && windowSize > 0
    }

    constructor (contents: seq<byte>, pageSize: nat, begin: nat)
      requires pageSize > 0
      ensures Valid() && fresh(data) && data[..] == contents && this.pageSize == pageSize
      ensures offset == 0 && windowSize == pageSize
    {
      this.pageSize, this.begin := pageSize, begin;
      fileSize, offset, windowSize := |contents|, 0, pageSize;
      data := new byte[|contents|](i requires 0 <= i < |contents| => contents[i]);
    }

    /** `ftruncate`. */
    method SetFileSize(size: nat)
      modifies this`data, this`fileSize
      ensures fileSize == data.Length == size && fresh(data)
      ensures data[..] == Resize(old(data[..]), size)
    {
      var previous := data;
      data := new byte[size](i requires 0 <= i < size reads previous => if i < previous.Length then previous[i] else 0);
      fileSize := size;
      assert data[..] == Resize(previous[..], size);
    }

    /** `mmap`: the system chooses the address. */
    method Map()
      modifies this`begin
    {
      begin := *;
    }

    method Unmap()
      modifies this`offset, this`windowSize
      ensures offset == 0 && windowSize == 0
    {
      offset, windowSize := 0, 0;
    }

    method Trim(numBytesToKeep: nat)
      requires Valid()
      modifies this
      ensures Valid() && fresh(data)
      ensures data[..] == Resize(old(data[..]), numBytesToKeep)
      ensures offset == 0 && windowSize == pageSize
    {
      Unmap();
      SetFileSize(numBytesToKeep);
      windowSize := pageSize;
      Map();
    }

    method Clear()
      requires Valid()
      modifies this
      ensures Valid() && fresh(data)
      ensures data[..] == []
      ensures offset == 0 && windowSize == pageSize
    {
      Trim(0);
    }

    /** The bytes from `at` on are mapped and are in the file. */
    predicate IsInWindow(at: nat, size: nat): (b: bool)
      requires Valid()
      reads this
      ensures b <==> offset <= at && at + size <= offset + windowSize && at + size <= fileSize
    {
      var mappedSize := EffectiveWindowSize(fileSize, offset, windowSize);
      offset <= at && offset + mappedSize >= at + size
    }

    /** Where the mapped bytes of the file end. */
    function MappedEnd(): nat
      requires Valid()
      reads this
    {
      offset + EffectiveWindowSize(fileSize, offset, windowSize)
    }

    /** The position in the file of the byte that appears at an address. */
    function FileIndex(p: int): int
      reads this
    {
      offset + (p - begin)
    }

    /** The writable overload: grows the file when the range passes its end. */
    method GetPtr(at: nat, size: nat) returns (p: int)
      requires Valid()
      modifies this
      ensures Valid()
      ensures FileIndex(p) == at
      ensures begin <= p && p + size <= begin + windowSize && IsInWindow(at, size)
      ensures fileSize == Max(old(fileSize), at + size)
      ensures data[..] == Resize(old(data[..]), fileSize)
      ensures at + size <= old(fileSize) ==> data == old(data)
      ensures data == old(data) || fresh(data)
      ensures old(IsInWindow(at, size)) ==>
        begin == old(begin) && offset == old(offset) && windowSize == old(windowSize)
      ensures !old(IsInWindow(at, size)) ==>
        at < offset + pageSize && at + size < offset + windowSize <= at + size + pageSize
    {
      hide IsInWindow;
      if IsInWindow(at, size) {
        return begin + (at - offset);
      }
      Slide(at, size);
      return begin + (at - offset);
    }

    /** Moves the window to the page where the range starts; it ends with the page behind the last byte. */
    method Slide(at: nat, size: nat)
      requires Valid()
      modifies this
      ensures Valid()
      ensures offset <= at < offset + pageSize && at + size <= fileSize
      ensures at + size < offset + windowSize <= at + size + pageSize
      ensures fileSize == Max(old(fileSize), at + size)
      ensures data[..] == Resize(old(data[..]), fileSize)
      ensures at + size <= old(fileSize) ==> data == old(data)
      ensures data == old(data) || fresh(data)
    {
      hide PageStart, PagesFor;
      AlignedWindow(at, size, pageSize);
      Unmap();
      offset := PageStart(at, pageSize);
      windowSize := at - offset + size;
      windowSize := PagesFor(windowSize, pageSize);
      if fileSize < at + size {
        SetFileSize(at + size);
      }
      Map();
    }

    /** A window has whole pages, and at least one: whatever is mapped at the front of the file comes with the page. */
    lemma FrontPageMapped(size: nat)
      requires Valid() && offset == 0 && size <= pageSize && size <= fileSize
      ensures IsInWindow(0, size)
    {
    }

    static lemma AlignedWindow(at: nat, size: nat, page: nat)
      requires page > 0
      ensures var start := PageStart(at, page);
        && start % page == 0 && start <= at < start + page
        && PagesFor(at - start + size, page) % page == 0
        && at + size < start + PagesFor(at - start + size, page) <= at + size + page
    {
      var w := at % page + size;
      assert PageStart(at, page) == page * (at / page);
      assert PagesFor(w, page) == page * (w / page + 1);
      Multiple(page, at / page);
      Multiple(page, w / page + 1);
    }

    static lemma Multiple(page: nat, k: nat)
      requires page > 0
      ensures (page * k) % page == 0
    {
      var q, r := page * k / page, page * k % page;
      assert page * (k - q) == r;
      NotBetween(page, k - q);
    }

    /** The read-only overload: nothing at or past the end of the file. It shares the code above,
        so a range that starts inside the file and passes its end makes the file grow. */
    method GetReadPtr(at: nat, size: nat) returns (p: Option<int>)
      requires Valid()
      modifies this
      ensures Valid()
      ensures p.None? <==> at >= old(fileSize)
      ensures p.None? ==> data == old(data) && data[..] == old(data[..])
      ensures p.Some? ==> FileIndex(p.value) == at && IsInWindow(at, size)
      ensures p.Some? ==> data[..] == Resize(old(data[..]), Max(old(fileSize), at + size))
      ensures at + size <= old(fileSize) ==> data == old(data) && data[..] == old(data[..])
      ensures data == old(data) || fresh(data)
    {
      if at >= fileSize {
        return None;
      }
      var q := GetPtr(at, size);
      return Some(q);
    }
  }
}

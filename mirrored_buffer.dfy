/**
 * The mirrored ring-buffer engine of src/lib.rs.
 *
 * The platform maps the same `C` physical bytes twice, back to back, so the
 * buffer sees `2 * C` bytes of storage whose index `j` and `j + C` alias one
 * byte. Here the physical bytes are the array `data` and storage index `j`
 * is `data[j % C]`; `Storage()` is the whole mirrored view.
 */
module Mirrored {
  import opened Wrappers
  import opened Error
  import opened Bytes
  import Bits
  import Util
  import opened DoubleMapping

  function Min(a: nat, b: nat): nat {
    if a < b then a else b
  }

  /** Name of the backing shared-memory object: a fixed prefix, the process id and an optional suffix. */
  function ShmName(pid: string, suffix: Option<string>): (r: string)
    ensures |r| >= 17 + |pid| && r[0] == '/' && r[1..16] == "mirrored-buffer" && r[16] == '-'
    ensures r[17..17 + |pid|] == pid
    ensures suffix.None? ==> |r| == 17 + |pid|
    ensures suffix.Some? ==> r[17 + |pid|..] == "-" + suffix.value
  {
    match suffix
    case None => "/mirrored-buffer-" + pid
    case Some(s) => "/mirrored-buffer-" + pid + "-" + s
  }

  /** Within one process, distinct suffixes (or a suffix and none) give distinct names. */
  lemma SuffixesKeepNamesApart(pid: string, a: Option<string>, b: Option<string>)
    requires ShmName(pid, a) == ShmName(pid, b)
    ensures a == b
  {
    var prefix := "/mirrored-buffer-" + pid;
    if a.Some? && b.Some? {
      var n := |prefix + "-"|;
      assert ShmName(pid, a)[n..] == a.value;
      assert ShmName(pid, b)[n..] == b.value;
    }
  }

  /**
   * Outcome of the sizing and validation steps of `new`, in the order the
   * source takes them: a zero size, a failed `shm_open`, a rounded capacity
   * that is not a power of two, a failed `ftruncate`/`mmap`, or success with
   * the rounded capacity.
   */
  function Sizing(size: nat, page: nat, shmOpenOk: bool, mapOk: bool): (r: Result<nat>)
    requires page > 0
    ensures size == 0 ==> r == Err(InvalidSize(0))
    ensures r.Ok? <==> size > 0 && shmOpenOk && mapOk && Bits.IsPowerOfTwo(Util.RoundUpToPageSize(size, page))
    ensures r.Ok? ==> r.value == Util.RoundUpToPageSize(size, page) && r.value >= size
                      && r.value % page == 0 && Bits.IsPowerOfTwo(r.value)
    ensures r.Err? && r.error.InvalidSize? ==> !Bits.IsPowerOfTwo(r.error.size) && (size > 0 ==> shmOpenOk)
    ensures r.Err? && r.error.IO? ==> size > 0 && (!shmOpenOk || !mapOk)
    ensures size > 0 && !shmOpenOk ==> r == Err(IO)
    ensures size > 0 && shmOpenOk && !Bits.IsPowerOfTwo(Util.RoundUpToPageSize(size, page)) ==>
              r == Err(InvalidSize(Util.RoundUpToPageSize(size, page)))
    ensures size > 0 && shmOpenOk && Bits.IsPowerOfTwo(Util.RoundUpToPageSize(size, page)) && !mapOk ==>
              r == Err(IO)
    ensures r != Err(NoPageSize)
  {
    if size == 0 then Err(InvalidSize(0))
    else if !shmOpenOk then Err(IO)
    else
      var total := Util.RoundUpToPageSize(size, page);
      if !Bits.IsPowerOfTwo(total) then Err(InvalidSize(total))
      else if !mapOk then Err(IO)
      else Ok(total)
  }

  /** A request of one page or less yields exactly one page when pages are powers of two. */
  lemma SizingWithinOnePage(size: nat, page: nat)
    requires page > 0 && Bits.IsPowerOfTwo(page) && 0 < size <= page
    ensures Sizing(size, page, true, true) == Ok(page)
  {
    if size < page {
      Bits.ModUnique(size, page, 0, size);
    } else {
      Bits.ModUnique(page, page, 1, 0);
    }
  }

  /** A request just over two pages rounds to three pages and is rejected, whatever the page size. */
  lemma SizingRejectsThreePages(size: nat, page: nat, mapOk: bool)
    requires page > 0 && 2 * page < size <= 3 * page
    ensures Sizing(size, page, true, mapOk) == Err(InvalidSize(3 * page))
  {
    Util.RoundUpToThreePages(size, page);
    Bits.ThreeTimesIsNotPowerOfTwo(page);
  }

  /** A writable window of the mirrored storage: indices [start, start + len). */
  datatype Window = Window(start: nat, len: nat)

  class MirroredBuffer {
    const name: string

    var head: nat
    var tail: nat

    const sizeTotal: nat
    const sizeMask: nat
    var sizeUsed: nat

    /** The physical bytes; storage index j aliases data[j % sizeTotal]. */
    const data: array<u8>

    /** The parts of the invariant fixed at construction. */
    ghost predicate Shape() {
      data.Length == sizeTotal && sizeTotal > 0 && Bits.IsPowerOfTwo(sizeTotal) && sizeMask == sizeTotal - 1
    }

    /**
     * The object invariant. The tail sits sizeUsed bytes after the head,
     * wrapped once; full and empty both have head == tail and differ only in
     * sizeUsed.
     */
    ghost predicate Valid()
      reads this
    {
      && Shape()
      && head < sizeTotal && tail < sizeTotal && sizeUsed <= sizeTotal
      && tail == Wrap(head + sizeUsed, sizeTotal)
    }

    /** The tail is the head advanced by sizeUsed, modulo the capacity. */
    lemma TailFollowsHead()
      requires Valid()
      ensures tail == (head + sizeUsed) % sizeTotal
      ensures head == tail <==> sizeUsed == 0 || sizeUsed == sizeTotal
    {
      Bits.ModBelowTwice(head + sizeUsed, sizeTotal);
    }

    /**
     * The 2 * sizeTotal bytes seen through the double mapping: index i and
     * index i + sizeTotal read the same physical byte.
     */
    function Storage(): (s: seq<u8>)
      reads data
      ensures |s| == 2 * data.Length
    {
      data[..] + data[..]
    }

    /** Storage index j is physical byte j % sizeTotal. */
    lemma StorageAt(j: nat)
      requires Shape() && j < 2 * sizeTotal
      ensures Storage()[j] == data[j % sizeTotal]
    {
      Bits.ModBelowTwice(j, sizeTotal);
      StorageReads(data[..], j);
    }

    /** Storage index i and its mirror i + sizeTotal always read the same byte. */
    lemma MirrorHalvesAgree(i: nat)
      requires Shape() && i < sizeTotal
      ensures Storage()[i] == Storage()[i + sizeTotal] == data[i]
    {
      StorageAt(i);
      StorageAt(i + sizeTotal);
    }

    /** The committed bytes in order, oldest first. */
    ghost function Contents(): seq<u8>
      reads this, data
      requires Valid()
    {
      Storage()[head..head + sizeUsed]
    }

    constructor Init(name: string, sizeTotal: nat)
      requires sizeTotal > 0 && Bits.IsPowerOfTwo(sizeTotal)
      ensures Valid() && fresh(data)
      ensures this.name == name && this.sizeTotal == sizeTotal
      ensures head == 0 && tail == 0 && sizeUsed == 0
    {
      this.name := name;
      this.head := 0;
      this.tail := 0;
      this.sizeTotal := sizeTotal;
      this.sizeMask := sizeTotal - 1;
      this.sizeUsed := 0;
      this.data := new u8[sizeTotal];
    }

    /**
     * `MirroredBuffer::new`: rejects a zero size, opens the shared-memory
     * object, rounds the size up to pages, rejects a capacity failing the
     * power-of-two test, maps the mirror and optionally fills it. The two
     * platform steps that can fail are the parameters shmOpenOk and mapOk.
     */
    static method New(size: nat, pid: string, suffix: Option<string>, initial: Option<u8>,
                      page: nat, shmOpenOk: bool, mapOk: bool)
      returns (r: Result<MirroredBuffer>)
      requires page > 0
      ensures r.Ok? <==> Sizing(size, page, shmOpenOk, mapOk).Ok?
      ensures r.Err? ==> r.error == Sizing(size, page, shmOpenOk, mapOk).error
      ensures r.Ok? ==> fresh(r.value) && fresh(r.value.data) && r.value.Valid()
      ensures r.Ok? ==> r.value.name == ShmName(pid, suffix)
      ensures r.Ok? ==> r.value.Size() == Util.RoundUpToPageSize(size, page)
                        && r.value.sizeMask == r.value.Size() - 1
      ensures r.Ok? ==> r.value.head == 0 && r.value.tail == 0 && r.value.Used() == 0
                        && r.value.Free() == r.value.Size()
      ensures r.Ok? && initial.Some? ==>
                forall j :: 0 <= j < 2 * r.value.sizeTotal ==> r.value.Storage()[j] == initial.value
    {
      if size == 0 {
        return Err(InvalidSize(size));
      }
      var name := ShmName(pid, suffix);
      if !shmOpenOk {
        return Err(IO);
      }
      var sizeTotal := Util.RoundUpToPageSize(size, page);
      var sizeMask := sizeTotal - 1;
      Bits.MaskTestIsPowerOfTwo(sizeTotal);
      if Bits.And(sizeTotal, sizeMask) != 0 {
        return Err(InvalidSize(sizeTotal));
      }
      if !mapOk {
        return Err(IO);
      }
      var b := new MirroredBuffer.Init(name, sizeTotal);
      if initial.Some? {
        b.Fill(0, 2 * sizeTotal, initial.value);
      }
      return Ok(b);
    }

    function Free(): (r: nat)
      reads this
      requires Valid()
      ensures r + Used() == Size()
    {
      sizeTotal - sizeUsed
    }

    function Used(): (r: nat)
      reads this
      requires Valid()
      ensures r <= Size()
    {
      sizeUsed
    }

    function Size(): (r: nat)
      reads this
      requires Valid()
      ensures r > 0 && Bits.IsPowerOfTwo(r)
    {
      sizeTotal
    }

    /**
     * The writable window at the tail, as long as the request allows and the
     * free space permits; nothing when that length is zero. Claiming changes
     * no cursor, so claiming again before a commit offers the same window.
     */
    function Claim(n: nat): (r: Option<Window>)
      reads this
      requires Valid()
      ensures r.None? <==> n == 0 || Free() == 0
      ensures r.Some? ==> r.value.start == tail && r.value.len == Min(n, Free())
      ensures r.Some? ==> r.value.start + r.value.len <= 2 * sizeTotal
    {
      var k := Min(n, Free());
      if k == 0 then None else Some(Window(tail, k))
    }

    /** A byte of the claimable region never aliases a committed byte. */
    lemma ClaimSparesCommitted(a: nat, k: nat)
      requires Valid() && a < Free() && k < sizeUsed
      ensures (tail + a) % sizeTotal != (head + k) % sizeTotal
    {
      Bits.ModBelowTwice(tail + a, sizeTotal);
      Bits.ModBelowTwice(head + k, sizeTotal);
    }

    /** A write to storage index j: it lands on physical byte j % sizeTotal and is seen at both mirror positions. */
    method Write(j: nat, v: u8)
      requires Valid() && j < 2 * sizeTotal
      modifies data
      ensures data[..] == old(data[..])[j % sizeTotal := v]
      ensures forall i :: 0 <= i < sizeTotal && i != j % sizeTotal ==> data[i] == old(data[i])
      ensures Storage()[j] == v
      ensures Storage()[if j < sizeTotal then j + sizeTotal else j - sizeTotal] == v
      ensures tail <= j < tail + Free() ==> Contents() == old(Contents())
    {
      Bits.ModBelowTwice(j, sizeTotal);
      if tail <= j < tail + Free() {
        WriteSparesRange(data[..], head, sizeUsed, j - tail, v);
      }
      data[j % sizeTotal] := v;
    }

    /**
     * `slice.fill(v)` on storage indices [lo, hi): the physical bytes those
     * indices reach hold v and every other byte keeps its value; filling
     * inside the claimable region keeps the committed bytes.
     */
    method Fill(lo: nat, hi: nat, v: u8)
      requires Valid() && lo <= hi <= 2 * sizeTotal
      modifies data
      ensures forall j :: lo <= j < hi ==> Storage()[j] == v
      ensures forall i :: 0 <= i < sizeTotal ==> data[i] == if Reached(i, lo, hi, sizeTotal) then v else old(data[i])
      ensures tail <= lo && hi <= tail + Free() ==> Contents() == old(Contents())
    {
      for j := lo to hi
        invariant forall i :: 0 <= i < sizeTotal ==> data[i] == if Reached(i, lo, j, sizeTotal) then v else old(data[i])
        invariant tail <= lo && hi <= tail + Free() ==> Contents() == old(Contents())
      {
        Bits.ModBelowTwice(j, sizeTotal);
        ReachedStep(lo, j, sizeTotal);
        Write(j, v);
      }
      FilledRangeReads(data[..], lo, hi, v);
    }

    /**
     * Publishes at most n claimed bytes: the free space caps the advance, the
     * tail wraps with the mask, and the bytes at the old tail join the
     * committed ones.
     */
    method Commit(n: nat) returns (k: nat)
      requires Valid()
      modifies this`tail, this`sizeUsed
      ensures Valid()
      ensures k == Min(n, old(Free()))
      ensures sizeUsed == old(sizeUsed) + k && tail == (old(tail) + k) % sizeTotal && head == old(head)
      ensures Contents() == old(Contents()) + old(Storage()[tail..tail + k])
    {
      k := Min(n, Free());
      MaskWraps(tail + k);
      sizeUsed := sizeUsed + k;
      tail := Bits.And(tail + k, sizeMask);
      CommitExtendsContents(k);
    }

    /** Advancing sizeUsed by k over unchanged bytes appends the k bytes at the old tail. */
    twostate lemma CommitExtendsContents(k: nat)
      requires old(Valid()) && Valid() && unchanged(data)
      requires head == old(head) && sizeUsed == old(sizeUsed) + k
      ensures Contents() == old(Contents()) + old(Storage()[tail..tail + k])
    {
      var d := data[..];
      assert old(data[..]) == d;
      assert Storage() == d + d && old(Storage()) == d + d;
      ExtendAtTail(d, head, old(sizeUsed), k);
    }

    /** Below two laps, `& sizeMask` is `% sizeTotal` and takes off one lap at most. */
    lemma MaskWraps(x: nat)
      requires Shape() && x < 2 * sizeTotal
      ensures Bits.And(x, sizeMask) == x % sizeTotal == Wrap(x, sizeTotal)
    {
      Bits.MaskIsMod(x, sizeTotal);
      Bits.ModBelowTwice(x, sizeTotal);
    }

    /** Releases at most n committed bytes from the front; the head wraps with the mask. */
    method Consume(n: nat) returns (k: nat)
      requires Valid()
      modifies this`head, this`sizeUsed
      ensures Valid()
      ensures k == Min(n, old(Used()))
      ensures sizeUsed == old(sizeUsed) - k && head == (old(head) + k) % sizeTotal && tail == old(tail)
      ensures Contents() == old(Contents())[k..]
    {
      k := Min(n, Used());
      MaskWraps(head + k);
      sizeUsed := sizeUsed - k;
      head := Bits.And(head + k, sizeMask);
      ConsumeDropsContents(k);
    }

    /** Moving the head k places and shrinking sizeUsed by k over unchanged bytes drops the first k bytes. */
    twostate lemma ConsumeDropsContents(k: nat)
      requires old(Valid()) && Valid() && unchanged(data)
      requires k <= old(sizeUsed) && sizeUsed == old(sizeUsed) - k && head == Wrap(old(head) + k, sizeTotal)
      ensures Contents() == old(Contents())[k..]
    {
      var d := data[..];
      assert old(data[..]) == d;
      assert Storage() == d + d && old(Storage()) == d + d;
      DropAtHead(d, old(head), old(sizeUsed), k);
    }

    /**
     * The committed bytes as one slice of the mirrored storage: nothing when
     * none are committed, and otherwise exactly sizeUsed bytes starting at
     * the head, the full buffer (head == tail) included.
     */
    function Committed(): (r: Option<seq<u8>>)
      reads this, data
      requires Valid()
      ensures r.None? <==> Used() == 0
      ensures r.Some? ==> r.value == Contents() && |r.value| == Used()
    {
      if Used() == 0 then None
      else if head < tail then Some(Storage()[head..tail])
      else Some(Storage()[head..tail + Size()])
    }

    /**
     * The producer protocol of the tests: claim up to n bytes, fill the
     * claimed window with v, commit n. The committed bytes gain exactly the
     * k filled ones, in order, whether or not the window crosses the end of
     * the physical bytes.
     */
    method ClaimFillCommit(n: nat, v: u8) returns (k: nat)
      requires Valid()
      modifies this`tail, this`sizeUsed, data
      ensures Valid()
      ensures k == Min(n, old(Free()))
      ensures head == old(head) && sizeUsed == old(sizeUsed) + k && tail == (old(tail) + k) % sizeTotal
      ensures Contents() == old(Contents()) + seq(k, _ => v)
      ensures forall i :: 0 <= i < sizeTotal ==>
                data[i] == if Reached(i, old(tail), old(tail) + k, sizeTotal) then v else old(data[i])
    {
      var w := Claim(n);
      ghost var len := Min(n, Free());
      if w.Some? {
        Fill(w.value.start, w.value.start + w.value.len, v);
      }
      ghost var filled, committed := Storage()[tail..tail + len], Contents();
      assert filled == seq(len, _ => v);
      k := Commit(n);
      assert Contents() == committed + filled;
    }

    /**
     * Copies bytes into the claimable window at the tail, one storage index
     * at a time: the window then reads the bytes in order, across the wrap,
     * and the committed bytes are untouched.
     */
    method CopyToClaim(bytes: seq<u8>)
      requires Valid() && |bytes| <= Free()
      modifies data
      ensures Storage()[tail..tail + |bytes|] == bytes
      ensures forall i :: 0 <= i < sizeTotal && !Reached(i, tail, tail + |bytes|, sizeTotal) ==> data[i] == old(data[i])
      ensures Contents() == old(Contents())
    {
      ghost var d := data[..];
      for i := 0 to |bytes|
        invariant data[..] == Copied(d, tail, bytes[..i])
      {
        CopiedStep(d, tail, bytes, i);
        data[Wrap(tail + i, sizeTotal)] := bytes[i];
      }
      assert bytes[..|bytes|] == bytes;
      CopiedReads(d, tail, bytes);
      CopiedSpares(d, head, sizeUsed, bytes);
      forall i | 0 <= i < sizeTotal && !Reached(i, tail, tail + |bytes|, sizeTotal)
        ensures data[i] == d[i]
      {
        CopiedElsewhere(d, tail, bytes, i);
      }
    }

    /**
     * Claim |bytes| bytes, copy the bytes the claim admits into the window
     * and commit them: the committed bytes gain the first k of them, in
     * order, across the wrap.
     */
    method ClaimWriteCommit(bytes: seq<u8>) returns (k: nat)
      requires Valid()
      modifies this`tail, this`sizeUsed, data
      ensures Valid()
      ensures k == Min(|bytes|, old(Free()))
      ensures head == old(head) && sizeUsed == old(sizeUsed) + k && tail == (old(tail) + k) % sizeTotal
      ensures Contents() == old(Contents()) + bytes[..k]
      ensures forall i :: 0 <= i < sizeTotal && !Reached(i, old(tail), old(tail) + k, sizeTotal) ==>
                data[i] == old(data[i])
    {
      var w := Claim(|bytes|);
      if w.Some? {
        CopyToClaim(bytes[..w.value.len]);
      }
      k := Commit(|bytes|);
    }

    /** Committed byte k is the physical byte k places after the head, wrapping. */
    lemma ContentsAt(k: nat)
      requires Valid() && k < sizeUsed
      ensures Contents()[k] == data[(head + k) % sizeTotal]
    {
      StorageAt(head + k);
    }
  }
}

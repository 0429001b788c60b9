/// Page-state model of the on-chip flash that the McuFlash layer drives.
///
/// The flash is a sequence of 0x200-byte pages; each page is either erased
/// (reading it directly would hard-fault on the LPC55Sxx) or programmed with
/// exactly one page of bytes.  Everything here is a pure specification: the
/// driver and the McuFlash operations are proved against these functions.
module FlashModel {

  /** One flash page: McuFlash_CONFIG_FLASH_BLOCK_SIZE, also the driver's PFlashPageSize. */
  const PAGE_SIZE: nat := 0x200

  /** The value McuFlash_Read stores into the caller's buffer for an erased region. */
  const ERASED_FILL: byte := 0xFF

  newtype byte = x: int | 0 <= x < 0x100

  datatype PageState = Erased | Programmed(bytes: seq<byte>)

  /** The flash array, page by page; page p holds the bytes [p * PAGE_SIZE, (p + 1) * PAGE_SIZE). */
  type Memory = seq<PageState>

  /** The McuLib result codes returned by the flash layer. */
  datatype ErrCode = ErrOk | ErrFailed | ErrFault

  function PageOf(a: nat): nat { a / PAGE_SIZE }

  function OffsetIn(a: nat): nat { a % PAGE_SIZE }

  function Fill(v: byte, n: nat): (r: seq<byte>)
    ensures |r| == n && forall i | 0 <= i < n :: r[i] == v
  {
    seq(n, _ => v)
  }

  function Zeros(n: nat): seq<byte> { Fill(0, n) }

  /** Every programmed page holds exactly one page of bytes. */
  predicate WellFormed(m: Memory) {
    forall p | 0 <= p < |m| :: m[p].Programmed? ==> |m[p].bytes| == PAGE_SIZE
  }

  predicate InFlash(m: Memory, addr: nat, n: nat) {
    addr + n <= |m| * PAGE_SIZE
  }

  /** The region [addr, addr + n) is non-empty and lies entirely on erased pages. */
  predicate RegionErased(m: Memory, addr: nat, n: nat) {
    0 < n && InFlash(m, addr, n) &&
    forall a | addr <= a < addr + n :: PageOf(a) < |m| && m[PageOf(a)] == Erased
  }

  /** The region [addr, addr + n) lies entirely on programmed pages (so it can be read). */
  predicate RegionProgrammed(m: Memory, addr: nat, n: nat) {
    InFlash(m, addr, n) &&
    forall a | addr <= a < addr + n :: PageOf(a) < |m| && m[PageOf(a)].Programmed?
  }

  function ByteAt(m: Memory, a: nat): byte
    requires WellFormed(m) && PageOf(a) < |m| && m[PageOf(a)].Programmed?
  {
    m[PageOf(a)].bytes[OffsetIn(a)]
  }

  /** What a successful read of [addr, addr + n) returns. */
  function Contents(m: Memory, addr: nat, n: nat): (r: seq<byte>)
    requires WellFormed(m) && RegionProgrammed(m, addr, n)
    ensures |r| == n
  {
    seq(n, i requires 0 <= i < n => ByteAt(m, addr + i))
  }

  /** `page` with the bytes from `offset` on replaced by `chunk`. */
  function Overwrite(page: seq<byte>, offset: nat, chunk: seq<byte>): (r: seq<byte>)
    requires offset + |chunk| <= |page|
    ensures |r| == |page|
    ensures forall j | 0 <= j < |page| ::
              r[j] == if offset <= j < offset + |chunk| then chunk[j - offset] else page[j]
  {
    page[..offset] + chunk + page[offset + |chunk|..]
  }

  /** Page p holds at least one byte of the region [addr, addr + n). */
  predicate Touches(p: nat, addr: nat, n: nat) {
    0 < n && addr < (p + 1) * PAGE_SIZE && p * PAGE_SIZE < addr + n
  }

  /** Byte j of a page as the merge buffer sees it before the merge. */
  function OldByte(s: PageState, j: nat): byte {
    if s.Programmed? && j < |s.bytes| then s.bytes[j] else ERASED_FILL
  }

  /** Page p after the bytes of `data`, placed at `addr`, have been merged into it. */
  function MergedPage(s: PageState, p: nat, addr: nat, data: seq<byte>): (r: seq<byte>)
    ensures |r| == PAGE_SIZE
  {
    seq(PAGE_SIZE, j requires 0 <= j < PAGE_SIZE =>
      if addr <= p * PAGE_SIZE + j < addr + |data| then data[p * PAGE_SIZE + j - addr] else OldByte(s, j))
  }

  /** The memory once every page below `limit` that the write of `data` at `addr` touches has been reprogrammed. */
  function WrittenBelow(m: Memory, addr: nat, data: seq<byte>, limit: nat): (r: Memory)
    ensures |r| == |m|
    ensures WellFormed(m) ==> WellFormed(r)
  {
    seq(|m|, p requires 0 <= p < |m| =>
      if p < limit && Touches(p, addr, |data|) then Programmed(MergedPage(m[p], p, addr, data)) else m[p])
  }

  /** The memory after a successful write of `data` at `addr`. */
  function Written(m: Memory, addr: nat, data: seq<byte>): (r: Memory)
    ensures |r| == |m|
    ensures WellFormed(m) ==> WellFormed(r)
  {
    WrittenBelow(m, addr, data, |m|)
  }

  /** The memory after pages [first, first + count) have been erased. */
  function EraseRange(m: Memory, first: nat, count: nat): (r: Memory)
    ensures |r| == |m|
    ensures WellFormed(m) ==> WellFormed(r)
  {
    seq(|m|, p requires 0 <= p < |m| => if first <= p < first + count then Erased else m[p])
  }

  /** The memory after the pages from `first` on have been programmed with consecutive pages of `src`. */
  function ProgramRange(m: Memory, first: nat, src: seq<byte>): (r: Memory)
    requires |src| % PAGE_SIZE == 0
    ensures |r| == |m|
    ensures WellFormed(m) ==> WellFormed(r)
  {
    seq(|m|, p requires 0 <= p < |m| =>
      if first <= p < first + |src| / PAGE_SIZE
      then Programmed(src[(p - first) * PAGE_SIZE .. (p - first + 1) * PAGE_SIZE])
      else m[p])
  }

  /** Nothing outside pages [first, first + count) differs between m and m'. */
  predicate SameOutside(m: Memory, m': Memory, first: nat, count: nat) {
    |m'| == |m| &&
    forall p | 0 <= p < |m| && !(first <= p < first + count) :: m'[p] == m[p]
  }

  /**
   * A page-by-page operation meant to turn m into `goal` stopped at page `stop`:
   * the pages before it are as in `goal`, the pages after it are untouched, and
   * page `stop` itself is indeterminate.
   */
  ghost predicate StoppedAt(m: Memory, m': Memory, goal: Memory, stop: nat) {
    |m'| == |m| && |goal| == |m| &&
    forall p | 0 <= p < |m| && p != stop :: m'[p] == if p < stop then goal[p] else m[p]
  }

  // ---------------------------------------------------------------------------
  // Facts about pages and addresses

  lemma PageOfBounds(a: nat)
    ensures PageOf(a) * PAGE_SIZE <= a < (PageOf(a) + 1) * PAGE_SIZE
    ensures a == PageOf(a) * PAGE_SIZE + OffsetIn(a)
  {
  }

  /** A byte lies on page p exactly when p is its page number. */
  lemma OnPage(a: nat, p: nat)
    requires p * PAGE_SIZE <= a < (p + 1) * PAGE_SIZE
    ensures PageOf(a) == p && OffsetIn(a) == a - p * PAGE_SIZE
  {
    PageOfBounds(a);
  }

  /** Every byte of a programmed, existing page can be read. */
  lemma PageReadable(m: Memory, p: nat)
    requires p < |m| && m[p].Programmed?
    ensures RegionProgrammed(m, p * PAGE_SIZE, PAGE_SIZE)
  {
    forall a | p * PAGE_SIZE <= a < p * PAGE_SIZE + PAGE_SIZE
      ensures PageOf(a) < |m| && m[PageOf(a)].Programmed?
    {
      OnPage(a, p);
    }
  }

  /** Some byte of [addr, addr + n) lies on an existing erased page. */
  predicate TouchesErased(m: Memory, addr: nat, n: nat) {
    exists a | addr <= a < addr + n :: PageOf(a) < |m| && m[PageOf(a)] == Erased
  }

  /** A whole page inside the flash is either entirely erased or holds no erased byte. */
  lemma WholePageErasedOrNot(m: Memory, p: nat)
    requires InFlash(m, p * PAGE_SIZE, PAGE_SIZE)
    ensures RegionErased(m, p * PAGE_SIZE, PAGE_SIZE) || !TouchesErased(m, p * PAGE_SIZE, PAGE_SIZE)
  {
    if m[p] == Erased {
      forall a | p * PAGE_SIZE <= a < p * PAGE_SIZE + PAGE_SIZE
        ensures PageOf(a) < |m| && m[PageOf(a)] == Erased
      {
        OnPage(a, p);
      }
    } else {
      forall a | p * PAGE_SIZE <= a < p * PAGE_SIZE + PAGE_SIZE
        ensures !(PageOf(a) < |m| && m[PageOf(a)] == Erased)
      {
        OnPage(a, p);
      }
    }
  }

  /** An erased region cannot be read. */
  lemma ErasedNotProgrammed(m: Memory, addr: nat, n: nat)
    requires RegionErased(m, addr, n)
    ensures !RegionProgrammed(m, addr, n)
  {
    assert m[PageOf(addr)] == Erased;
  }

  // ---------------------------------------------------------------------------
  // The write that McuFlash_Program performs

  /** Reading back the region just written returns the data. */
  lemma WrittenReadBack(m: Memory, addr: nat, data: seq<byte>)
    requires WellFormed(m) && InFlash(m, addr, |data|)
    ensures var w := Written(m, addr, data);
      RegionProgrammed(w, addr, |data|) && Contents(w, addr, |data|) == data
  {
    var w := Written(m, addr, data);
    forall a | addr <= a < addr + |data|
      ensures PageOf(a) < |w| && w[PageOf(a)] == Programmed(MergedPage(m[PageOf(a)], PageOf(a), addr, data))
    {
      PageOfBounds(a);
    }
    assert RegionProgrammed(w, addr, |data|);
    forall i | 0 <= i < |data|
      ensures Contents(w, addr, |data|)[i] == data[i]
    {
      var a := addr + i;
      PageOfBounds(a);
      var P, j := PageOf(a), OffsetIn(a);
      assert w[P] == Programmed(MergedPage(m[P], P, addr, data));
      assert P * PAGE_SIZE + j == a;
      assert MergedPage(m[P], P, addr, data)[j] == data[i];
      assert ByteAt(w, a) == data[i];
    }
  }

  /** Reading part of a readable region gives the corresponding part of its contents. */
  lemma ContentsPart(m: Memory, addr: nat, n: nat, j: nat, size: nat)
    requires WellFormed(m) && RegionProgrammed(m, addr, n) && 0 < size && j + size <= n
    ensures RegionProgrammed(m, addr + j, size)
    ensures Contents(m, addr + j, size) == Contents(m, addr, n)[j..j + size]
  {
    assert RegionProgrammed(m, addr + j, size);
    var whole, part := Contents(m, addr, n), Contents(m, addr + j, size);
    forall i | 0 <= i < size
      ensures part[i] == whole[j + i]
    {
      assert whole[j + i] == ByteAt(m, addr + (j + i));
    }
  }

  /** A write changes no byte outside [addr, addr + |data|) of a page that was programmed before. */
  lemma WrittenFrame(m: Memory, addr: nat, data: seq<byte>, a: nat)
    requires WellFormed(m) && PageOf(a) < |m| && m[PageOf(a)].Programmed?
    requires a < addr || addr + |data| <= a
    ensures var w := Written(m, addr, data);
      w[PageOf(a)].Programmed? && ByteAt(w, a) == ByteAt(m, a)
  {
    PageOfBounds(a);
  }

  /** A write changes only the pages from the one holding addr to the one holding its last byte. */
  lemma WrittenPages(m: Memory, addr: nat, data: seq<byte>, p: nat)
    requires p < |m| && (|data| == 0 || p < PageOf(addr) || PageOf(addr + |data| - 1) < p)
    ensures Written(m, addr, data)[p] == m[p]
  {
    PageOfBounds(addr);
    if |data| > 0 {
      PageOfBounds(addr + |data| - 1);
    }
  }

  /** A page-aligned write of exactly one page replaces that page (the fast path of McuFlash_Program). */
  lemma FastPathWritten(m: Memory, addr: nat, data: seq<byte>)
    requires WellFormed(m) && addr % PAGE_SIZE == 0 && |data| == PAGE_SIZE && PageOf(addr) < |m|
    ensures Written(m, addr, data) == m[PageOf(addr) := Programmed(data)]
  {
    var P := PageOf(addr);
    PageOfBounds(addr);
    assert MergedPage(m[P], P, addr, data) == data;
  }

  /** Two adjacent writes leave the memory as one write of their concatenation. */
  lemma WrittenConcat(m: Memory, addr: nat, d1: seq<byte>, d2: seq<byte>)
    requires WellFormed(m)
    ensures Written(Written(m, addr, d1), addr + |d1|, d2) == Written(m, addr, d1 + d2)
  {
    var w1 := Written(m, addr, d1);
    var lhs := Written(w1, addr + |d1|, d2);
    var rhs := Written(m, addr, d1 + d2);
    forall p | 0 <= p < |m|
      ensures lhs[p] == rhs[p]
    {
      var t1, t2 := Touches(p, addr, |d1|), Touches(p, addr + |d1|, |d2|);
      assert Touches(p, addr, |d1 + d2|) <==> t1 || t2;
      if t1 || t2 {
        var merged := MergedPage(m[p], p, addr, d1 + d2);
        var got := if t2 then MergedPage(w1[p], p, addr + |d1|, d2) else MergedPage(m[p], p, addr, d1);
        forall j | 0 <= j < PAGE_SIZE
          ensures got[j] == merged[j]
        {
          var a := p * PAGE_SIZE + j;
          if addr + |d1| <= a < addr + |d1| + |d2| {
            assert (d1 + d2)[a - addr] == d2[a - addr - |d1|];
          } else if addr <= a < addr + |d1| {
            assert t1;
            assert (d1 + d2)[a - addr] == d1[a - addr];
          }
        }
        assert got == merged;
      }
    }
  }

  /** Reprogramming the next touched page extends a partial write by one page. */
  lemma WrittenBelowStep(m: Memory, addr: nat, data: seq<byte>, p: nat)
    requires p < |m| && Touches(p, addr, |data|)
    ensures WrittenBelow(m, addr, data, p)[p := Programmed(MergedPage(m[p], p, addr, data))]
         == WrittenBelow(m, addr, data, p + 1)
  {
  }

  /** Once every touched page is below the limit, the partial write is the whole write. */
  lemma WrittenBelowDone(m: Memory, addr: nat, data: seq<byte>, limit: nat)
    requires addr + |data| <= limit * PAGE_SIZE
    ensures WrittenBelow(m, addr, data, limit) == Written(m, addr, data)
  {
  }

  /**
   * A write that fails on a page of its second part, after its first part
   * succeeded, has stopped on that page as a write of the whole data.
   */
  lemma StoppedAtCompose(m: Memory, m': Memory, addr: nat, d1: seq<byte>, d2: seq<byte>, rest: seq<byte>, stop: nat)
    requires WellFormed(m)
    requires Touches(stop, addr + |d1|, |d2|)
    requires StoppedAt(Written(m, addr, d1), m', Written(Written(m, addr, d1), addr + |d1|, d2), stop)
    ensures StoppedAt(m, m', Written(m, addr, d1 + d2 + rest), stop)
  {
    var w1 := Written(m, addr, d1);
    var w12 := Written(m, addr, d1 + d2);
    WrittenConcat(m, addr, d1, d2);
    WrittenConcat(m, addr, d1 + d2, rest);
    var goal := Written(m, addr, d1 + d2 + rest);
    assert goal == Written(w12, addr + |d1 + d2|, rest);
    forall p | 0 <= p < |m| && p != stop
      ensures m'[p] == if p < stop then goal[p] else m[p]
    {
      if p < stop {
        assert !Touches(p, addr + |d1 + d2|, |rest|);
      } else {
        assert !Touches(p, addr, |d1|);
      }
    }
  }

  // ---------------------------------------------------------------------------
  // Erasing and programming whole pages

  /** Erasing the pages of a page-aligned region leaves the region erased. */
  lemma EraseRangeErased(m: Memory, addr: nat, n: nat)
    requires addr % PAGE_SIZE == 0 && n % PAGE_SIZE == 0 && 0 < n && InFlash(m, addr, n)
    ensures RegionErased(EraseRange(m, PageOf(addr), n / PAGE_SIZE), addr, n)
  {
    var e := EraseRange(m, PageOf(addr), n / PAGE_SIZE);
    forall a | addr <= a < addr + n
      ensures PageOf(a) < |e| && e[PageOf(a)] == Erased
    {
      PageOfBounds(a);
      PageOfBounds(addr);
    }
  }

  /** Programming a single page through the driver replaces that page. */
  lemma ProgramOnePage(m: Memory, p: nat, src: seq<byte>)
    requires |src| == PAGE_SIZE && p < |m|
    ensures ProgramRange(m, p, src) == m[p := Programmed(src)]
  {
    assert src[0 .. PAGE_SIZE] == src;
  }

  // ---------------------------------------------------------------------------
  // How McuFlash_Program splits a write into per-page chunks

  /** One step of the merge loop: the page address, where in the page the data goes, and how much of it. */
  datatype Chunk = Chunk(pageAddr: nat, offset: nat, size: nat)

  /** The bytes the merge loop copies into a page: up to the end of the page, or what remains. */
  function ChunkSize(offset: nat, remaining: nat): nat
    requires offset < PAGE_SIZE
  {
    if offset + remaining > PAGE_SIZE then PAGE_SIZE - offset else remaining
  }

  /** The chunks the merge loop visits from a given page, offset and remaining length. */
  function Chunks(pageAddr: nat, offset: nat, remaining: nat): (r: seq<Chunk>)
    requires offset < PAGE_SIZE
    ensures forall k | 0 <= k < |r| :: r[k].offset < PAGE_SIZE
    decreases remaining
  {
    if remaining == 0 then []
    else
      var size := ChunkSize(offset, remaining);
      [Chunk(pageAddr, offset, size)] + Chunks(pageAddr + PAGE_SIZE, 0, remaining - size)
  }

  /** The chunks of a write of n bytes at addr. */
  function Plan(addr: nat, n: nat): seq<Chunk> {
    Chunks(PageOf(addr) * PAGE_SIZE, OffsetIn(addr), n)
  }

  /** The number of bytes the chunks cover. */
  function Covered(cs: seq<Chunk>): nat {
    if cs == [] then 0 else Covered(cs[..|cs| - 1]) + cs[|cs| - 1].size
  }

  lemma {:induction false} CoveredPrepend(c: Chunk, cs: seq<Chunk>)
    ensures Covered([c] + cs) == c.size + Covered(cs)
    decreases |cs|
  {
    if cs == [] {
      assert [c] + cs == [c];
      assert [c][..0] == [];
    } else {
      var init := cs[..|cs| - 1];
      CoveredPrepend(c, init);
      assert ([c] + cs)[..|cs|] == [c] + init;
    }
  }

  /**
   * The chunks from one starting point: consecutive pages in ascending order,
   * an offset only in the first, each chunk non-empty and inside its page,
   * every chunk but the last running to the end of its page, each one starting
   * where the previous one ended, and together exactly `remaining` bytes.
   */
  lemma {:induction false} ChunksShape(pageAddr: nat, offset: nat, remaining: nat)
    requires offset < PAGE_SIZE && (remaining > 0 || offset == 0)
    ensures var cs := Chunks(pageAddr, offset, remaining);
      && (|cs| - 1) * PAGE_SIZE < offset + remaining <= |cs| * PAGE_SIZE
      && Covered(cs) == remaining
      && forall k | 0 <= k < |cs| ::
           && cs[k].pageAddr == pageAddr + k * PAGE_SIZE
           && cs[k].offset == (if k == 0 then offset else 0)
           && 0 < cs[k].size <= PAGE_SIZE - cs[k].offset
           && (k < |cs| - 1 ==> cs[k].offset + cs[k].size == PAGE_SIZE)
           && cs[k].pageAddr + cs[k].offset == pageAddr + offset + Covered(cs[..k])
    decreases remaining
  {
    var cs := Chunks(pageAddr, offset, remaining);
    if remaining > 0 {
      var size := ChunkSize(offset, remaining);
      var head := Chunk(pageAddr, offset, size);
      var tail := Chunks(pageAddr + PAGE_SIZE, 0, remaining - size);
      ChunksShape(pageAddr + PAGE_SIZE, 0, remaining - size);
      assert cs == [head] + tail;
      CoveredPrepend(head, tail);
      forall k | 0 <= k < |cs|
        ensures cs[k].pageAddr + cs[k].offset == pageAddr + offset + Covered(cs[..k])
      {
        if k > 0 {
          assert cs[..k] == [head] + tail[..k - 1];
          CoveredPrepend(head, tail[..k - 1]);
        }
      }
    }
  }

  /**
   * The chunks of a write of n > 0 bytes at addr partition [addr, addr + n):
   * one chunk per page from the page holding addr to the page holding the
   * last byte, in ascending order, an offset only in the first, every chunk
   * but the last running to the end of its page, and each one starting where
   * the previous one ended.
   */
  lemma PlanPartition(addr: nat, n: nat)
    requires 0 < n
    ensures var plan := Plan(addr, n);
      && |plan| == PageOf(addr + n - 1) - PageOf(addr) + 1
      && Covered(plan) == n
      && forall k | 0 <= k < |plan| ::
           && plan[k].pageAddr == (PageOf(addr) + k) * PAGE_SIZE
           && plan[k].offset == (if k == 0 then OffsetIn(addr) else 0)
           && 0 < plan[k].size <= PAGE_SIZE - plan[k].offset
           && (k < |plan| - 1 ==> plan[k].offset + plan[k].size == PAGE_SIZE)
           && plan[k].pageAddr + plan[k].offset == addr + Covered(plan[..k])
  {
    var plan := Plan(addr, n);
    ChunksShape(PageOf(addr) * PAGE_SIZE, OffsetIn(addr), n);
    PageOfBounds(addr);
    PlanLength(addr, n, |plan|);
  }

  /** The number of pages a write covers, from its page offset and length. */
  lemma PlanLength(addr: nat, n: nat, count: nat)
    requires 0 < n
    requires (count - 1) * PAGE_SIZE < OffsetIn(addr) + n <= count * PAGE_SIZE
    ensures count == PageOf(addr + n - 1) - PageOf(addr) + 1
  {
    var last := addr + n - 1;
    PageOfBounds(addr);
    PageOfBounds(last);
    assert last == PageOf(addr) * PAGE_SIZE + OffsetIn(addr) + n - 1;
    assert (PageOf(addr) + count - 1) * PAGE_SIZE <= last < (PageOf(addr) + count) * PAGE_SIZE;
    OnPage(last, PageOf(addr) + count - 1);
  }

  /** Each chunk of the plan has the size the merge loop computes from what remains. */
  lemma PlanChunkSize(addr: nat, n: nat, k: nat)
    requires k < |Plan(addr, n)|
    ensures var plan := Plan(addr, n);
      Covered(plan[..k]) <= n && plan[k].offset < PAGE_SIZE &&
      plan[k].size == ChunkSize(plan[k].offset, n - Covered(plan[..k]))
  {
    ChunksDrop(PageOf(addr) * PAGE_SIZE, OffsetIn(addr), n, k);
  }

  /** Dropping the first k chunks leaves the chunks of what remains after them. */
  lemma {:induction false} ChunksDrop(pageAddr: nat, offset: nat, remaining: nat, k: nat)
    requires offset < PAGE_SIZE && k < |Chunks(pageAddr, offset, remaining)|
    ensures var cs := Chunks(pageAddr, offset, remaining);
      Covered(cs[..k]) <= remaining &&
      cs[k..] == Chunks(cs[k].pageAddr, cs[k].offset, remaining - Covered(cs[..k]))
    decreases k
  {
    var cs := Chunks(pageAddr, offset, remaining);
    if k > 0 {
      var size := ChunkSize(offset, remaining);
      var head := Chunk(pageAddr, offset, size);
      var tail := Chunks(pageAddr + PAGE_SIZE, 0, remaining - size);
      assert cs == [head] + tail;
      ChunksDrop(pageAddr + PAGE_SIZE, 0, remaining - size, k - 1);
      assert cs[..k] == [head] + tail[..k - 1];
      CoveredPrepend(head, tail[..k - 1]);
      assert cs[k..] == tail[k - 1..];
    }
  }
}

/// McuFlash: the flash access layer (McuFlash.c) on top of the IAP driver.
///
/// The driver handle s_flashDriver is a file-level singleton in the source; here
/// it is the FlashDriver object every operation receives.  Addresses are byte
/// addresses from the start of the flash array.
module McuFlash {
  import opened FlashModel
  import opened FlashIap

  /** McuFlash_CONFIG_FLASH_BLOCK_SIZE: the unit of programming and erasing. */
  const BLOCK_SIZE: nat := PAGE_SIZE

  /**
   * McuFlash_IsAccessible: a region may be read unless the driver confirms that
   * it is erased (reading erased flash hard-faults).  A failing verification
   * therefore counts as accessible.
   */
  method IsAccessible(drv: FlashDriver, addr: nat, nofBytes: nat) returns (accessible: bool)
    requires drv.Valid()
    modifies drv`faults
    ensures !accessible ==> RegionErased(drv.pages, addr, nofBytes)
    ensures old(drv.Healthy()) ==> drv.Healthy() && (accessible <==> !RegionErased(drv.pages, addr, nofBytes))
  {
    var status := drv.VerifyErase(addr, nofBytes);
    if status == Success {
      return false;
    }
    return true;
  }

  /** McuFlash_IsErased: true only for a region the driver confirms to be erased. */
  method IsErased(drv: FlashDriver, addr: nat, nofBytes: nat) returns (erased: bool)
    requires drv.Valid()
    modifies drv`faults
    ensures erased ==> RegionErased(drv.pages, addr, nofBytes)
    ensures old(drv.Healthy()) ==> drv.Healthy() && (erased <==> RegionErased(drv.pages, addr, nofBytes))
  {
    var status := drv.VerifyErase(addr, nofBytes);
    return status == Success;
  }

  /**
   * McuFlash_Read: copies dataSize bytes into data.  An erased region is not
   * touched; the buffer is filled with 0xFF instead and the result is ERR_FAULT.
   * The guard is the driver's erase verification of the whole region, so with
   * a working driver the driver read reaches erased flash exactly when the
   * region is partly, but not wholly, erased.
   */
  method Read(drv: FlashDriver, addr: nat, data: array<byte>, dataSize: nat) returns (res: ErrCode)
    requires drv.Valid() && dataSize <= data.Length
    modifies drv`faults, drv`erasedReads, data
    ensures res == ErrOk || res == ErrFault
    ensures forall i | dataSize <= i < data.Length :: data[i] == old(data[i])
    ensures res == ErrOk ==>
              RegionProgrammed(drv.pages, addr, dataSize) && data[..dataSize] == Contents(drv.pages, addr, dataSize)
    ensures RegionErased(drv.pages, addr, dataSize) ==> res == ErrFault
    ensures old(drv.Healthy()) ==> drv.Healthy()
    ensures old(drv.Healthy()) && RegionErased(drv.pages, addr, dataSize) ==>
              data[..dataSize] == Fill(ERASED_FILL, dataSize)
    ensures old(drv.Healthy()) ==> (res == ErrOk <==> RegionProgrammed(drv.pages, addr, dataSize))
    ensures drv.erasedReads == old(drv.erasedReads) || (drv.erasedReads == old(drv.erasedReads) + 1 && res == ErrFault)
    ensures old(drv.Healthy()) ==>
              (drv.erasedReads == old(drv.erasedReads) <==>
                 RegionErased(drv.pages, addr, dataSize) || !InFlash(drv.pages, addr, dataSize) ||
                 !TouchesErased(drv.pages, addr, dataSize))
  {
    var accessible := IsAccessible(drv, addr, dataSize);
    if !accessible {
      forall i | 0 <= i < dataSize {
        data[i] := ERASED_FILL;
      }
      ErasedNotProgrammed(drv.pages, addr, dataSize);
      return ErrFault;
    }
    var status := drv.Read(addr, data, dataSize);
    if status != Success {
      return ErrFault;
    }
    if RegionErased(drv.pages, addr, dataSize) {
      ErasedNotProgrammed(drv.pages, addr, dataSize);
    }
    return ErrOk;
  }

  /**
   * McuFlash_ProgramPage: erases, verifies, programs and verifies one whole page.
   * A misaligned address or a size other than one page is refused up front.
   */
  method ProgramPage(drv: FlashDriver, addr: nat, data: seq<byte>) returns (res: ErrCode)
    requires drv.Valid()
    modifies drv`pages, drv`faults
    ensures drv.Valid()
    ensures res == ErrOk || res == ErrFailed
    ensures addr % PAGE_SIZE != 0 || |data| != PAGE_SIZE ==>
              res == ErrFailed && drv.pages == old(drv.pages) && drv.faults == old(drv.faults)
    ensures res == ErrOk ==>
              PageOf(addr) < |drv.pages| && drv.pages == old(drv.pages)[PageOf(addr) := Programmed(data)]
    ensures res == ErrFailed ==> SameOutside(old(drv.pages), drv.pages, PageOf(addr), 1)
    ensures old(drv.Healthy()) ==> drv.Healthy()
    ensures old(drv.Healthy()) ==>
              (res == ErrOk <==> addr % PAGE_SIZE == 0 && |data| == PAGE_SIZE && InFlash(old(drv.pages), addr, PAGE_SIZE))
  {
    if addr % PAGE_SIZE != 0 {
      return ErrFailed;
    }
    if |data| != PAGE_SIZE {
      return ErrFailed;
    }
    var P := PageOf(addr);
    var status := drv.Erase(addr, |data|);
    if status != Success {
      return ErrFailed;
    }
    EraseRangeErased(old(drv.pages), addr, PAGE_SIZE);
    status := drv.VerifyErase(addr, |data|);
    if status != Success {
      return ErrFailed;
    }
    ghost var erased := drv.pages;
    status := drv.Program(addr, data);
    if status != Success {
      return ErrFailed;
    }
    ProgramOnePage(erased, P, data);
    assert drv.pages == erased[P := Programmed(data)];
    assert ProgramRange(drv.pages, P, data) == drv.pages by {
      ProgramOnePage(drv.pages, P, data);
    }
    status := drv.VerifyProgram(addr, data);
    if status != Success {
      return ErrFailed;
    }
    assert old(drv.pages)[P := Erased][P := Programmed(data)] == old(drv.pages)[P := Programmed(data)];
    return ErrOk;
  }

  /** The case McuFlash_Program hands straight to ProgramPage: one aligned, whole page. */
  predicate FullPage(addr: nat, dataSize: nat) {
    addr % BLOCK_SIZE == 0 && dataSize == BLOCK_SIZE
  }

  /**
   * McuFlash_Program: writes data at addr.  A whole aligned page is programmed
   * directly; anything else goes through the merge loop of MergeWrite.  The
   * ghost out-parameter records the (page, offset, size) steps of that loop.
   */
  method Program(drv: FlashDriver, addr: nat, data: seq<byte>) returns (res: ErrCode, ghost steps: seq<Chunk>)
    requires drv.Valid()
    requires |data| > 0
    modifies drv`pages, drv`faults, drv`erasedReads
    ensures drv.Valid()
    ensures res == ErrOk || res == ErrFailed
    ensures res == ErrOk ==>
              InFlash(old(drv.pages), addr, |data|) && drv.pages == Written(old(drv.pages), addr, data)
    ensures res == ErrFailed ==>
              exists stop :: Touches(stop, addr, |data|) &&
                StoppedAt(old(drv.pages), drv.pages, Written(old(drv.pages), addr, data), stop)
    ensures !FullPage(addr, |data|) ==>
              && (res == ErrOk ==> RegionProgrammed(old(drv.pages), addr, |data|) && steps == Plan(addr, |data|))
              && (res == ErrFailed ==> steps < Plan(addr, |data|))
    ensures old(drv.Healthy()) ==> drv.Healthy()
    ensures old(drv.Healthy()) ==>
              (res == ErrOk <==>
                 if FullPage(addr, |data|) then InFlash(old(drv.pages), addr, |data|)
                 else RegionProgrammed(old(drv.pages), addr, |data|))
    ensures old(drv.Healthy()) ==> drv.erasedReads == old(drv.erasedReads)
  {
    if !FullPage(addr, |data|) {
      res, steps := MergeWrite(drv, addr, data);
    } else {
      ghost var m := drv.pages;
      steps := [];
      res := ProgramPage(drv, addr, data);
      PageOfBounds(addr);
      if res == ErrOk {
        FastPathWritten(m, addr, data);
      } else {
        StoppedBelow(m, drv.pages, addr, data, PageOf(addr));
      }
    }
  }

  /**
   * The merge path of McuFlash_Program: each page the write touches is read,
   * the new bytes are copied over it and it is reprogrammed, which needs every
   * touched page to be readable, i.e. programmed.  It stops at the first page
   * that fails and does not undo the pages already written.
   */
  method MergeWrite(drv: FlashDriver, addr: nat, data: seq<byte>) returns (res: ErrCode, ghost steps: seq<Chunk>)
    requires drv.Valid()
    requires |data| > 0
    modifies drv`pages, drv`faults, drv`erasedReads
    ensures drv.Valid()
    ensures res == ErrOk || res == ErrFailed
    ensures res == ErrOk ==>
              && RegionProgrammed(old(drv.pages), addr, |data|)
              && drv.pages == Written(old(drv.pages), addr, data)
              && steps == Plan(addr, |data|)
    ensures res == ErrFailed ==>
              && steps < Plan(addr, |data|)
              && exists stop :: Touches(stop, addr, |data|) &&
                   StoppedAt(old(drv.pages), drv.pages, Written(old(drv.pages), addr, data), stop)
    ensures old(drv.Healthy()) ==> drv.Healthy()
    ensures old(drv.Healthy()) ==> (res == ErrOk <==> RegionProgrammed(old(drv.pages), addr, |data|))
    ensures old(drv.Healthy()) ==> drv.erasedReads == old(drv.erasedReads)
  {
    ghost var m := drv.pages;
    steps := [];
    var buffer := new byte[BLOCK_SIZE];
    var pageAddr: nat := PageOf(addr) * BLOCK_SIZE;
    var offset: nat := OffsetIn(addr);
    var remaining: nat := |data|;
    ghost var page: nat := PageOf(addr);
    ghost var done: nat := 0;
    ghost var plan := Plan(addr, |data|);
    res := ErrFailed;
    PageOfBounds(addr);
    while remaining > 0
      invariant drv.Valid() && |drv.pages| == |m|
      invariant pageAddr == page * PAGE_SIZE && offset < PAGE_SIZE
      invariant done + remaining == |data|
      invariant addr + done <= pageAddr + offset
      invariant remaining > 0 ==> pageAddr + offset == addr + done
      invariant offset != 0 ==> done == 0
      invariant done > 0 ==> res == ErrOk && RegionProgrammed(m, addr, done)
      invariant drv.pages == WrittenBelow(m, addr, data, page)
      invariant steps + Chunks(pageAddr, offset, remaining) == plan
      invariant old(drv.Healthy()) ==> drv.Healthy() && drv.erasedReads == old(drv.erasedReads)
      decreases remaining
    {
      var size: nat := if offset + remaining > BLOCK_SIZE then BLOCK_SIZE - offset else remaining;
      res := MergePage(drv, buffer, pageAddr, offset, data[|data| - remaining..], size, m, addr, data, page, done);
      if res != ErrOk {
        PlanStopped(steps, pageAddr, offset, remaining, plan);
        return ErrFailed, steps;
      }
      PlanAdvance(steps, pageAddr, offset, remaining, plan);
      steps := steps + [Chunk(pageAddr, offset, size)];
      pageAddr := pageAddr + BLOCK_SIZE;
      offset := 0;
      remaining := remaining - size;
      page := page + 1;
      done := done + size;
    }
    WrittenBelowDone(m, addr, data, page);
    return res, steps;
  }

  /** A merge that failed on page `page`, with every earlier touched page written, stopped there. */
  lemma StoppedBelow(m: Memory, m': Memory, addr: nat, data: seq<byte>, page: nat)
    requires Touches(page, addr, |data|)
    requires SameOutside(WrittenBelow(m, addr, data, page), m', page, 1)
    ensures StoppedAt(m, m', Written(m, addr, data), page)
  {
  }

  /** A successful read of one whole page returns that page's bytes. */
  lemma ReadWholePage(m: Memory, page: nat, buf: seq<byte>)
    requires WellFormed(m) && RegionProgrammed(m, page * PAGE_SIZE, PAGE_SIZE)
    requires buf == Contents(m, page * PAGE_SIZE, PAGE_SIZE)
    ensures page < |m| && m[page].Programmed? && buf == m[page].bytes
  {
    OnPage(page * PAGE_SIZE, page);
    forall j | 0 <= j < PAGE_SIZE
      ensures buf[j] == m[page].bytes[j]
    {
      OnPage(page * PAGE_SIZE + j, page);
      assert buf[j] == ByteAt(m, page * PAGE_SIZE + j);
    }
  }

  /**
   * One pass of the merge loop of McuFlash_Program: read the page at pageAddr
   * into the buffer, copy the first `size` bytes of src over it from `offset`
   * on, and reprogram the page with the buffer.  The ghost parameters place the
   * pass within the whole write of `data` at `addr` to the memory `m`: a pass
   * that works extends the written prefix by this page, one that fails leaves
   * the write stopped at this page.  An erased page cannot be read, so the
   * pass needs the page to be programmed.
   */
  method MergePage(drv: FlashDriver, buffer: array<byte>, pageAddr: nat, offset: nat, src: seq<byte>, size: nat,
                   ghost m: Memory, ghost addr: nat, ghost data: seq<byte>, ghost page: nat, ghost done: nat)
    returns (res: ErrCode)
    requires drv.Valid() && buffer.Length == BLOCK_SIZE && WellFormed(m)
    requires done < |data| && src == data[done..] && offset < BLOCK_SIZE && size == ChunkSize(offset, |data| - done)
    requires pageAddr == page * BLOCK_SIZE && pageAddr + offset == addr + done
    requires done > 0 ==> offset == 0 && RegionProgrammed(m, addr, done)
    requires drv.pages == WrittenBelow(m, addr, data, page)
    modifies drv`pages, drv`faults, drv`erasedReads, buffer
    ensures drv.Valid()
    ensures res == ErrOk || res == ErrFailed
    ensures res == ErrOk ==>
              drv.pages == WrittenBelow(m, addr, data, page + 1) && RegionProgrammed(m, addr, done + size)
    ensures res == ErrFailed ==>
              Touches(page, addr, |data|) && StoppedAt(m, drv.pages, Written(m, addr, data), page)
    ensures old(drv.Healthy()) ==> drv.Healthy()
    ensures old(drv.Healthy()) && RegionProgrammed(m, addr, |data|) ==> res == ErrOk
    ensures old(drv.Healthy()) ==> drv.erasedReads == old(drv.erasedReads)
  {
    ghost var before := drv.pages;
    assert Touches(page, addr, |data|);
    OnPage(pageAddr, page);
    if InFlash(before, pageAddr, BLOCK_SIZE) {
      WholePageErasedOrNot(before, page);
    }
    if old(drv.Healthy()) && RegionProgrammed(m, addr, |data|) {
      OnPage(addr + done, page);
      PageReadable(before, page);
    }
    res := Read(drv, pageAddr, buffer, BLOCK_SIZE);
    if res != ErrOk {
      StoppedBelow(m, drv.pages, addr, data, page);
      return ErrFailed;
    }
    ReadWholePage(before, page, buffer[..]);
    ghost var current := buffer[..];
    forall j | offset <= j < offset + size {
      buffer[j] := src[j - offset];
    }
    assert buffer[..] == Overwrite(current, offset, src[..size]);
    res := ProgramPage(drv, pageAddr, buffer[..]);
    if res != ErrOk {
      StoppedBelow(m, drv.pages, addr, data, page);
      return ErrFailed;
    }
    MergeAdvance(m, before, drv.pages, addr, data, page, offset, size, done);
  }

  /**
   * One successful pass of the merge loop turns the memory with the touched
   * pages below `page` written into the one with the touched pages up to and
   * including `page` written, and extends the readable prefix of the region.
   */
  lemma MergeAdvance(m: Memory, before: Memory, after: Memory, addr: nat, data: seq<byte>,
                     page: nat, offset: nat, size: nat, done: nat)
    requires WellFormed(m) && before == WrittenBelow(m, addr, data, page)
    requires done < |data| && offset < PAGE_SIZE && size == ChunkSize(offset, |data| - done)
    requires page * PAGE_SIZE + offset == addr + done
    requires done > 0 ==> offset == 0 && RegionProgrammed(m, addr, done)
    requires page < |before| && before[page].Programmed?
    requires after == before[page := Programmed(Overwrite(before[page].bytes, offset, data[done..][..size]))]
    ensures after == WrittenBelow(m, addr, data, page + 1)
    ensures RegionProgrammed(m, addr, done + size)
  {
    assert before[page] == m[page];
    assert Overwrite(m[page].bytes, offset, data[done..][..size]) == MergedPage(m[page], page, addr, data);
    WrittenBelowStep(m, addr, data, page);
    if done > 0 {
      ProgrammedExtend(m, addr, done, size, page);
    } else {
      forall a | addr <= a < addr + size
        ensures PageOf(a) < |m| && m[PageOf(a)].Programmed?
      {
        OnPage(a, page);
      }
    }
  }

  /** When the merge loop stops early, the chunks it has done are a proper prefix of the plan. */
  lemma PlanStopped(steps: seq<Chunk>, pageAddr: nat, offset: nat, remaining: nat, plan: seq<Chunk>)
    requires offset < PAGE_SIZE && remaining > 0
    requires steps + Chunks(pageAddr, offset, remaining) == plan
    ensures steps < plan
  {
    assert plan[..|steps|] == steps;
  }

  /** The merge loop visits the chunks of the plan one after the other. */
  lemma PlanAdvance(steps: seq<Chunk>, pageAddr: nat, offset: nat, remaining: nat, plan: seq<Chunk>)
    requires offset < PAGE_SIZE && remaining > 0
    requires steps + Chunks(pageAddr, offset, remaining) == plan
    ensures var c := Chunk(pageAddr, offset, ChunkSize(offset, remaining));
      (steps + [c]) + Chunks(pageAddr + PAGE_SIZE, 0, remaining - c.size) == plan
  {
    var c := Chunk(pageAddr, offset, ChunkSize(offset, remaining));
    assert Chunks(pageAddr, offset, remaining) == [c] + Chunks(pageAddr + PAGE_SIZE, 0, remaining - c.size);
  }

  /** A merge step that reads a programmed page extends the programmed prefix of the region. */
  lemma ProgrammedExtend(m: Memory, addr: nat, done: nat, size: nat, P: nat)
    requires RegionProgrammed(m, addr, done) && P < |m| && m[P].Programmed?
    requires P * PAGE_SIZE <= addr + done && addr + done + size <= (P + 1) * PAGE_SIZE
    ensures RegionProgrammed(m, addr, done + size)
  {
    forall a | addr + done <= a < addr + done + size
      ensures PageOf(a) < |m| && m[PageOf(a)].Programmed?
    {
      OnPage(a, P);
    }
  }

  /**
   * McuFlash_InitErase: erases nofBytes from addr page by page, leaving the
   * pages unreadable.  The size must be a multiple of the page size; the
   * address is not checked here, so a misaligned one is refused by the driver
   * on the first page.  It stops at the first page the driver fails to erase.
   */
  method InitErase(drv: FlashDriver, addr: nat, nofBytes: nat) returns (res: ErrCode)
    requires drv.Valid()
    modifies drv`pages, drv`faults
    ensures drv.Valid()
    ensures res == ErrOk || res == ErrFailed
    ensures nofBytes % BLOCK_SIZE != 0 ==> res == ErrFailed && drv.pages == old(drv.pages)
    ensures nofBytes > 0 && addr % BLOCK_SIZE != 0 ==> res == ErrFailed && drv.pages == old(drv.pages)
    ensures res == ErrOk ==>
              && (nofBytes > 0 ==> InFlash(old(drv.pages), addr, nofBytes) && RegionErased(drv.pages, addr, nofBytes))
              && drv.pages == EraseRange(old(drv.pages), PageOf(addr), nofBytes / BLOCK_SIZE)
    ensures res == ErrFailed ==>
              exists stop :: StoppedAt(old(drv.pages), drv.pages,
                                       EraseRange(old(drv.pages), PageOf(addr), nofBytes / BLOCK_SIZE), stop)
    ensures res == ErrFailed && nofBytes % BLOCK_SIZE == 0 ==>
              exists stop :: PageOf(addr) <= stop < PageOf(addr) + nofBytes / BLOCK_SIZE &&
                StoppedAt(old(drv.pages), drv.pages,
                          EraseRange(old(drv.pages), PageOf(addr), nofBytes / BLOCK_SIZE), stop)
    ensures old(drv.Healthy()) ==> drv.Healthy()
    ensures old(drv.Healthy()) ==>
              (res == ErrOk <==>
                 nofBytes % BLOCK_SIZE == 0 &&
                 (nofBytes == 0 || (addr % BLOCK_SIZE == 0 && InFlash(old(drv.pages), addr, nofBytes))))
  {
    ghost var m := drv.pages;
    if nofBytes % BLOCK_SIZE != 0 {
      assert StoppedAt(m, m, EraseRange(m, PageOf(addr), nofBytes / BLOCK_SIZE), 0);
      return ErrFailed;
    }
    PageOfBounds(addr);
    var i: nat := 0;
    while i < nofBytes / BLOCK_SIZE
      invariant drv.Valid() && |drv.pages| == |m|
      invariant i <= nofBytes / BLOCK_SIZE
      invariant i > 0 ==> addr % BLOCK_SIZE == 0 && InFlash(m, addr, i * BLOCK_SIZE)
      invariant drv.pages == EraseRange(m, PageOf(addr), i)
      invariant old(drv.Healthy()) ==> drv.Healthy()
    {
      ghost var before := drv.pages;
      var status := drv.Erase(addr + i * BLOCK_SIZE, BLOCK_SIZE);
      if status != Success {
        EraseStopped(m, before, drv.pages, addr, nofBytes / BLOCK_SIZE, i);
        return ErrFailed;
      }
      assert PageOf(addr + i * BLOCK_SIZE) == PageOf(addr) + i;
      assert drv.pages == EraseRange(m, PageOf(addr), i + 1);
      i := i + 1;
    }
    if nofBytes > 0 {
      EraseRangeErased(m, addr, nofBytes);
    }
    return ErrOk;
  }

  /** An erase loop that fails on its i-th page has stopped there. */
  lemma EraseStopped(m: Memory, before: Memory, after: Memory, addr: nat, count: nat, i: nat)
    requires i < count && before == EraseRange(m, PageOf(addr), i)
    requires i > 0 ==> addr % PAGE_SIZE == 0
    requires SameOutside(before, after, PageOf(addr + i * PAGE_SIZE), 1)
    ensures StoppedAt(m, after, EraseRange(m, PageOf(addr), count), PageOf(addr) + i)
  {
    PageOfBounds(addr);
    if i > 0 {
      assert PageOf(addr + i * PAGE_SIZE) == PageOf(addr) + i;
    }
  }

  /**
   * McuFlash_Erase: "erases" nofBytes from addr by programming zeros over
   * them one page at a time through McuFlash_Program, so the region stays
   * readable.  The size must be a multiple of the page size.  It stops at the
   * first page that fails.
   */
  method Erase(drv: FlashDriver, addr: nat, nofBytes: nat) returns (res: ErrCode)
    requires drv.Valid()
    requires nofBytes > 0
    modifies drv`pages, drv`faults, drv`erasedReads
    ensures drv.Valid()
    ensures res == ErrOk || res == ErrFailed
    ensures nofBytes % BLOCK_SIZE != 0 ==> res == ErrFailed && drv.pages == old(drv.pages)
    ensures res == ErrOk ==>
              InFlash(old(drv.pages), addr, nofBytes) && drv.pages == Written(old(drv.pages), addr, Zeros(nofBytes))
    ensures res == ErrFailed ==>
              exists stop :: StoppedAt(old(drv.pages), drv.pages, Written(old(drv.pages), addr, Zeros(nofBytes)), stop)
    ensures res == ErrFailed && nofBytes % BLOCK_SIZE == 0 ==>
              exists stop :: Touches(stop, addr, nofBytes) &&
                StoppedAt(old(drv.pages), drv.pages, Written(old(drv.pages), addr, Zeros(nofBytes)), stop)
    ensures old(drv.Healthy()) ==> drv.Healthy()
    ensures old(drv.Healthy()) && nofBytes % BLOCK_SIZE == 0 ==>
              (res == ErrOk <==>
                 if addr % BLOCK_SIZE == 0 then InFlash(old(drv.pages), addr, nofBytes)
                 else RegionProgrammed(old(drv.pages), addr, nofBytes))
    ensures old(drv.Healthy()) ==> drv.erasedReads == old(drv.erasedReads)
  {
    ghost var m := drv.pages;
    if nofBytes % BLOCK_SIZE != 0 {
      assert StoppedAt(m, m, Written(m, addr, Zeros(nofBytes)), 0);
      return ErrFailed;
    }
    var zeroBuffer := Zeros(BLOCK_SIZE);
    var i: nat := 0;
    res := ErrFailed;
    while i < nofBytes / BLOCK_SIZE
      invariant drv.Valid() && |drv.pages| == |m|
      invariant i <= nofBytes / BLOCK_SIZE
      invariant i > 0 ==> res == ErrOk && InFlash(m, addr, i * BLOCK_SIZE)
      invariant drv.pages == Written(m, addr, Zeros(i * BLOCK_SIZE))
      invariant old(drv.Healthy()) ==> drv.Healthy() && drv.erasedReads == old(drv.erasedReads)
      invariant old(drv.Healthy()) && addr % BLOCK_SIZE != 0 && i > 0 ==> RegionProgrammed(m, addr, i * BLOCK_SIZE)
    {
      res := ZeroFillPage(drv, m, addr, nofBytes, i, zeroBuffer);
      if res != ErrOk {
        return;
      }
      i := i + 1;
    }
    assert i * BLOCK_SIZE == nofBytes;
    return res;
  }

  /**
   * One pass of McuFlash_Erase's loop: McuFlash_Program of one page of zeros
   * at addr + i * BLOCK_SIZE, after i pages have gone through.  A failure
   * stops the whole fill on a page of this step, and with a healthy driver
   * happens only when the fill could never have succeeded.
   */
  method ZeroFillPage(drv: FlashDriver, ghost m: Memory, addr: nat, n: nat, i: nat, zeroBuffer: seq<byte>)
      returns (res: ErrCode)
    requires drv.Valid() && WellFormed(m) && |drv.pages| == |m|
    requires zeroBuffer == Zeros(BLOCK_SIZE) && (i + 1) * BLOCK_SIZE <= n
    requires drv.pages == Written(m, addr, Zeros(i * BLOCK_SIZE))
    modifies drv`pages, drv`faults, drv`erasedReads
    ensures drv.Valid() && |drv.pages| == |m|
    ensures res == ErrOk || res == ErrFailed
    ensures res == ErrOk ==>
              InFlash(m, addr, (i + 1) * BLOCK_SIZE) && drv.pages == Written(m, addr, Zeros((i + 1) * BLOCK_SIZE))
    ensures res == ErrOk && old(drv.Healthy()) && addr % BLOCK_SIZE != 0 &&
            (i > 0 ==> RegionProgrammed(m, addr, i * BLOCK_SIZE)) ==>
              RegionProgrammed(m, addr, (i + 1) * BLOCK_SIZE)
    ensures res == ErrFailed ==>
              exists stop :: Touches(stop, addr, n) && StoppedAt(m, drv.pages, Written(m, addr, Zeros(n)), stop)
    ensures res == ErrFailed && old(drv.Healthy()) ==>
              !(if addr % BLOCK_SIZE == 0 then InFlash(m, addr, n) else RegionProgrammed(m, addr, n))
    ensures old(drv.Healthy()) ==> drv.Healthy() && drv.erasedReads == old(drv.erasedReads)
  {
    ghost var before := drv.pages;
    ghost var steps;
    assert FullPage(addr + i * BLOCK_SIZE, BLOCK_SIZE) <==> addr % BLOCK_SIZE == 0;
    ZeroFillReadable(m, addr, n, i);
    res, steps := Program(drv, addr + i * BLOCK_SIZE, zeroBuffer);
    if res != ErrOk {
      ghost var stop :| Touches(stop, addr + i * BLOCK_SIZE, BLOCK_SIZE) &&
        StoppedAt(before, drv.pages, Written(before, addr + i * BLOCK_SIZE, zeroBuffer), stop);
      ZeroFillStopped(m, before, drv.pages, addr, n, i, stop);
      return;
    }
    if old(drv.Healthy()) && addr % BLOCK_SIZE != 0 && (i > 0 ==> RegionProgrammed(m, addr, i * BLOCK_SIZE)) {
      ZeroFillProgrammed(m, addr, i);
    }
    ZeroFillAdvance(m, before, drv.pages, addr, i);
  }

  /** A zero fill whose i-th page went through has written i + 1 pages of zeros. */
  lemma ZeroFillAdvance(m: Memory, before: Memory, after: Memory, addr: nat, i: nat)
    requires WellFormed(m)
    requires before == Written(m, addr, Zeros(i * PAGE_SIZE))
    requires after == Written(before, addr + i * PAGE_SIZE, Zeros(PAGE_SIZE))
    ensures after == Written(m, addr, Zeros((i + 1) * PAGE_SIZE))
  {
    WrittenConcat(m, addr, Zeros(i * PAGE_SIZE), Zeros(PAGE_SIZE));
    assert Zeros(i * PAGE_SIZE) + Zeros(PAGE_SIZE) == Zeros((i + 1) * PAGE_SIZE);
  }

  /** A zero fill that fails on its i-th page has stopped, as a write of the whole fill, on a page of that step. */
  lemma ZeroFillStopped(m: Memory, before: Memory, after: Memory, addr: nat, n: nat, i: nat, stop: nat)
    requires WellFormed(m) && (i + 1) * PAGE_SIZE <= n
    requires before == Written(m, addr, Zeros(i * PAGE_SIZE))
    requires Touches(stop, addr + i * PAGE_SIZE, PAGE_SIZE)
    requires StoppedAt(before, after, Written(before, addr + i * PAGE_SIZE, Zeros(PAGE_SIZE)), stop)
    ensures StoppedAt(m, after, Written(m, addr, Zeros(n)), stop)
    ensures Touches(stop, addr, n)
  {
    var d1, d2, rest := Zeros(i * PAGE_SIZE), Zeros(PAGE_SIZE), Zeros(n - (i + 1) * PAGE_SIZE);
    assert d1 + d2 + rest == Zeros(n);
    StoppedAtCompose(m, after, addr, d1, d2, rest, stop);
  }

  /**
   * With a readable region, every zero-fill step finds its own page range
   * readable: the earlier steps only reprogram pages.
   */
  lemma ZeroFillReadable(m: Memory, addr: nat, n: nat, i: nat)
    requires WellFormed(m) && (i + 1) * PAGE_SIZE <= n
    ensures RegionProgrammed(m, addr, n) ==>
              RegionProgrammed(Written(m, addr, Zeros(i * PAGE_SIZE)), addr + i * PAGE_SIZE, PAGE_SIZE)
  {
    if RegionProgrammed(m, addr, n) {
      var w := Written(m, addr, Zeros(i * PAGE_SIZE));
      forall a | addr + i * PAGE_SIZE <= a < addr + (i + 1) * PAGE_SIZE
        ensures PageOf(a) < |w| && w[PageOf(a)].Programmed?
      {
        assert addr <= a < addr + n;
      }
    }
  }

  /**
   * A misaligned zero-fill step that found its range readable extends the
   * readable region of the original memory by one page: the page it shares
   * with the previous step was readable before that step.
   */
  lemma ZeroFillProgrammed(m: Memory, addr: nat, i: nat)
    requires WellFormed(m)
    requires i > 0 ==> RegionProgrammed(m, addr, i * PAGE_SIZE)
    requires RegionProgrammed(Written(m, addr, Zeros(i * PAGE_SIZE)), addr + i * PAGE_SIZE, PAGE_SIZE)
    ensures RegionProgrammed(m, addr, (i + 1) * PAGE_SIZE)
  {
    var w := Written(m, addr, Zeros(i * PAGE_SIZE));
    forall a | addr <= a < addr + (i + 1) * PAGE_SIZE
      ensures PageOf(a) < |m| && m[PageOf(a)].Programmed?
    {
      if addr + i * PAGE_SIZE <= a {
        var p := PageOf(a);
        assert w[p].Programmed?;
        if Touches(p, addr, i * PAGE_SIZE) {
          var last := addr + i * PAGE_SIZE - 1;
          PageOfBounds(a);
          PageOfBounds(last);
          assert PageOf(last) == p;
          assert addr <= last < addr + i * PAGE_SIZE;
        }
      }
    }
  }

  /**
   * McuFlash_Init: sets up the driver handle.  The source spins forever when
   * the driver refuses, so the model requires that this driver call succeeds.
   */
  method Init(drv: FlashDriver)
    requires drv.NextCallSucceeds()
    modifies drv`faults
    ensures old(drv.Healthy()) ==> drv.Healthy()
  {
    var status := drv.Init();
    assert status == Success;
  }
}

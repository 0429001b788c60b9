/// McuLittleFSBlockDevice: the block-device callbacks littlefs is configured
/// with.  Each one turns a (block, offset) pair into a flash address, calls
/// the McuFlash layer and maps its result to a littlefs error code.
///
/// lfs_block_t, lfs_off_t and lfs_size_t are 32-bit unsigned, and so is the
/// address arithmetic; the flash array starts at address 0.
module LittleFsBlockDevice {
  import opened FlashModel
  import opened FlashIap
  import McuFlash

  /** The littlefs error codes the callbacks return. */
  const LFS_ERR_OK: int := 0
  const LFS_ERR_IO: int := -5

  /** The size of the 32-bit address space the addresses are computed in. */
  const ADDRESS_SPACE: nat := 0x1_0000_0000

  /**
   * The geometry the callbacks depend on: block_size and block_count of the
   * lfs_config, and McuLittleFS_CONFIG_BLOCK_OFFSET, the number of blocks
   * reserved in front of littlefs block 0.
   */
  datatype Config = Config(blockSize: nat, blockCount: nat, blockOffset: nat)

  /** The whole file system region, reserved blocks included, lies inside the 32-bit address space. */
  predicate Fits(c: Config) {
    0 < c.blockSize && (c.blockOffset + c.blockCount) * c.blockSize <= ADDRESS_SPACE
  }

  /** (block + BLOCK_OFFSET) * block_size + off, computed in 32 bits. */
  function FlashAddress(c: Config, block: nat, off: nat): (a: nat)
    ensures a < ADDRESS_SPACE
  {
    ((block + c.blockOffset) * c.blockSize + off) % ADDRESS_SPACE
  }

  /** The mapping of a McuFlash result to a littlefs error code. */
  function LfsResult(e: ErrCode): (r: int)
    ensures r == LFS_ERR_OK || r == LFS_ERR_IO
    ensures r == LFS_ERR_OK <==> e == ErrOk
  {
    if e == ErrOk then LFS_ERR_OK else LFS_ERR_IO
  }

  // ---------------------------------------------------------------------------
  // The address map

  lemma MulMono(a: nat, b: nat, k: nat)
    requires a <= b
    ensures a * k <= b * k
  {
  }

  lemma DivUnique(n: nat, d: nat, q: nat, r: nat)
    requires 0 < d && r < d && n == q * d + r
    ensures n / d == q && n % d == r
  {
    var q', r' := n / d, n % d;
    assert n == q' * d + r';
    if q' < q {
      MulMono(q' + 1, q, d);
    } else if q < q' {
      MulMono(q + 1, q', d);
    }
  }

  /**
   * Within a fitting configuration the address map does not wrap and can be
   * inverted: the address lies in block block + BLOCK_OFFSET at offset off.
   * So different (block, off) pairs never share a byte, and no block reaches
   * into the reserved blocks.
   */
  lemma AddressDecode(c: Config, block: nat, off: nat)
    requires Fits(c) && block < c.blockCount && off < c.blockSize
    ensures FlashAddress(c, block, off) == (block + c.blockOffset) * c.blockSize + off
    ensures FlashAddress(c, block, off) / c.blockSize == block + c.blockOffset
    ensures FlashAddress(c, block, off) % c.blockSize == off
    ensures c.blockOffset * c.blockSize <= FlashAddress(c, block, off)
  {
    var k := block + c.blockOffset;
    MulMono(k + 1, c.blockOffset + c.blockCount, c.blockSize);
    MulMono(c.blockOffset, k, c.blockSize);
    DivUnique(k * c.blockSize + off, c.blockSize, k, off);
  }

  lemma AddressesDistinct(c: Config, b1: nat, o1: nat, b2: nat, o2: nat)
    requires Fits(c) && b1 < c.blockCount && o1 < c.blockSize && b2 < c.blockCount && o2 < c.blockSize
    ensures FlashAddress(c, b1, o1) == FlashAddress(c, b2, o2) <==> b1 == b2 && o1 == o2
  {
    AddressDecode(c, b1, o1);
    AddressDecode(c, b2, o2);
  }

  /** Bytes of a block sit at consecutive addresses. */
  lemma AddressStep(c: Config, block: nat, off: nat, i: nat)
    requires Fits(c) && block < c.blockCount && off + i < c.blockSize
    ensures FlashAddress(c, block, off + i) == FlashAddress(c, block, off) + i
  {
    AddressDecode(c, block, off);
    AddressDecode(c, block, off + i);
  }

  /** With a block size that is a multiple of the page size every block starts on a page. */
  lemma BlockAligned(c: Config, block: nat)
    requires Fits(c) && block < c.blockCount && c.blockSize % PAGE_SIZE == 0
    ensures FlashAddress(c, block, 0) % PAGE_SIZE == 0
  {
    AddressDecode(c, block, 0);
    var k := block + c.blockOffset;
    var j := c.blockSize / PAGE_SIZE;
    assert k * c.blockSize == (k * j) * PAGE_SIZE;
    DivUnique(k * c.blockSize, PAGE_SIZE, k * j, 0);
  }

  // ---------------------------------------------------------------------------
  // The callbacks

  /** McuLittleFS_block_device_read: reads size bytes at off in block. */
  method Read(drv: FlashDriver, c: Config, block: nat, off: nat, buffer: array<byte>, size: nat) returns (r: int)
    requires drv.Valid() && size <= buffer.Length
    modifies drv`faults, drv`erasedReads, buffer
    ensures r == LFS_ERR_OK || r == LFS_ERR_IO
    ensures forall i | size <= i < buffer.Length :: buffer[i] == old(buffer[i])
    ensures r == LFS_ERR_OK ==>
              && RegionProgrammed(drv.pages, FlashAddress(c, block, off), size)
              && buffer[..size] == Contents(drv.pages, FlashAddress(c, block, off), size)
    ensures RegionErased(drv.pages, FlashAddress(c, block, off), size) ==> r == LFS_ERR_IO
    ensures old(drv.Healthy()) ==> drv.Healthy()
    ensures old(drv.Healthy()) ==> (r == LFS_ERR_OK <==> RegionProgrammed(drv.pages, FlashAddress(c, block, off), size))
    ensures drv.erasedReads == old(drv.erasedReads) || (drv.erasedReads == old(drv.erasedReads) + 1 && r == LFS_ERR_IO)
    ensures old(drv.Healthy()) && RegionErased(drv.pages, FlashAddress(c, block, off), size) ==>
              drv.erasedReads == old(drv.erasedReads)
  {
    var res := McuFlash.Read(drv, FlashAddress(c, block, off), buffer, size);
    return LfsResult(res);
  }

  /** McuLittleFS_block_device_prog: writes buffer at off in block through the merging McuFlash_Program. */
  method Prog(drv: FlashDriver, c: Config, block: nat, off: nat, buffer: seq<byte>) returns (r: int)
    requires drv.Valid() && |buffer| > 0
    modifies drv`pages, drv`faults, drv`erasedReads
    ensures drv.Valid()
    ensures r == LFS_ERR_OK || r == LFS_ERR_IO
    ensures r == LFS_ERR_OK ==>
              && InFlash(old(drv.pages), FlashAddress(c, block, off), |buffer|)
              && drv.pages == Written(old(drv.pages), FlashAddress(c, block, off), buffer)
    ensures r == LFS_ERR_IO ==>
              exists stop :: Touches(stop, FlashAddress(c, block, off), |buffer|) &&
                StoppedAt(old(drv.pages), drv.pages, Written(old(drv.pages), FlashAddress(c, block, off), buffer), stop)
    ensures old(drv.Healthy()) ==> drv.Healthy()
    ensures old(drv.Healthy()) ==>
              (r == LFS_ERR_OK <==>
                 if McuFlash.FullPage(FlashAddress(c, block, off), |buffer|)
                 then InFlash(old(drv.pages), FlashAddress(c, block, off), |buffer|)
                 else RegionProgrammed(old(drv.pages), FlashAddress(c, block, off), |buffer|))
    ensures old(drv.Healthy()) ==> drv.erasedReads == old(drv.erasedReads)
  {
    var res, steps := McuFlash.Program(drv, FlashAddress(c, block, off), buffer);
    return LfsResult(res);
  }

  /**
   * McuLittleFS_block_device_erase: "erases" one whole block with the
   * zero-filling McuFlash_Erase, so an erased block stays readable.
   */
  method Erase(drv: FlashDriver, c: Config, block: nat) returns (r: int)
    requires drv.Valid() && c.blockSize > 0
    modifies drv`pages, drv`faults, drv`erasedReads
    ensures drv.Valid()
    ensures r == LFS_ERR_OK || r == LFS_ERR_IO
    ensures c.blockSize % PAGE_SIZE != 0 ==> r == LFS_ERR_IO && drv.pages == old(drv.pages)
    ensures r == LFS_ERR_OK ==>
              && InFlash(old(drv.pages), FlashAddress(c, block, 0), c.blockSize)
              && drv.pages == Written(old(drv.pages), FlashAddress(c, block, 0), Zeros(c.blockSize))
    ensures r == LFS_ERR_IO ==>
              exists stop :: StoppedAt(old(drv.pages), drv.pages,
                                       Written(old(drv.pages), FlashAddress(c, block, 0), Zeros(c.blockSize)), stop)
    ensures r == LFS_ERR_IO && c.blockSize % PAGE_SIZE == 0 ==>
              exists stop :: Touches(stop, FlashAddress(c, block, 0), c.blockSize) &&
                StoppedAt(old(drv.pages), drv.pages,
                          Written(old(drv.pages), FlashAddress(c, block, 0), Zeros(c.blockSize)), stop)
    ensures old(drv.Healthy()) ==> drv.Healthy()
    ensures old(drv.Healthy()) && Fits(c) && block < c.blockCount && c.blockSize % PAGE_SIZE == 0 ==>
              (r == LFS_ERR_OK <==> InFlash(old(drv.pages), FlashAddress(c, block, 0), c.blockSize))
    ensures old(drv.Healthy()) ==> drv.erasedReads == old(drv.erasedReads)
  {
    if Fits(c) && block < c.blockCount && c.blockSize % PAGE_SIZE == 0 {
      BlockAligned(c, block);
    }
    var res := McuFlash.Erase(drv, FlashAddress(c, block, 0), c.blockSize);
    return LfsResult(res);
  }

  /** McuLittleFS_block_device_sync: nothing is cached, so there is nothing to do. */
  function Sync(c: Config): (r: int)
    ensures r == LFS_ERR_OK
  {
    LFS_ERR_OK
  }

  /** McuLittleFS_block_device_deinit: nothing to release. */
  function Deinit(): (r: int)
    ensures r == LFS_ERR_OK
  {
    LFS_ERR_OK
  }

  /** McuLittleFS_block_device_init: initialises the flash driver and reports success. */
  method Init(drv: FlashDriver) returns (r: int)
    requires drv.NextCallSucceeds()
    modifies drv`faults
    ensures r == LFS_ERR_OK
    ensures old(drv.Healthy()) ==> drv.Healthy()
  {
    McuFlash.Init(drv);
    return LFS_ERR_OK;
  }

  // ---------------------------------------------------------------------------
  // What littlefs relies on

  /**
   * Reading back any part of what a successful prog wrote returns exactly
   * those bytes of its buffer.
   */
  lemma ProgReadBack(m: Memory, c: Config, block: nat, off: nat, buffer: seq<byte>, off2: nat, size: nat)
    requires WellFormed(m) && Fits(c) && block < c.blockCount
    requires off + |buffer| <= c.blockSize && off <= off2 && 0 < size && off2 + size <= off + |buffer|
    requires InFlash(m, FlashAddress(c, block, off), |buffer|)
    ensures var w := Written(m, FlashAddress(c, block, off), buffer);
      && RegionProgrammed(w, FlashAddress(c, block, off2), size)
      && Contents(w, FlashAddress(c, block, off2), size) == buffer[off2 - off .. off2 - off + size]
  {
    var a := FlashAddress(c, block, off);
    WrittenReadBack(m, a, buffer);
    AddressStep(c, block, off, off2 - off);
    ContentsPart(Written(m, a, buffer), a, |buffer|, off2 - off, size);
  }

  /** A block fresh from erase reads as zeros anywhere inside it. */
  lemma ErasedBlockReadsZeros(m: Memory, c: Config, block: nat, off: nat, size: nat)
    requires WellFormed(m) && Fits(c) && block < c.blockCount
    requires 0 < size && off + size <= c.blockSize
    requires InFlash(m, FlashAddress(c, block, 0), c.blockSize)
    ensures var w := Written(m, FlashAddress(c, block, 0), Zeros(c.blockSize));
      && RegionProgrammed(w, FlashAddress(c, block, off), size)
      && Contents(w, FlashAddress(c, block, off), size) == Zeros(size)
  {
    ProgReadBack(m, c, block, 0, Zeros(c.blockSize), off, size);
    assert Zeros(c.blockSize)[off .. off + size] == Zeros(size);
  }

  /**
   * A prog inside one block leaves every readable byte of every other block
   * as it was.
   */
  lemma ProgKeepsOtherBlocks(m: Memory, c: Config, block: nat, off: nat, buffer: seq<byte>, other: nat, off2: nat)
    requires WellFormed(m) && Fits(c) && block < c.blockCount && other < c.blockCount && block != other
    requires off + |buffer| <= c.blockSize && off2 < c.blockSize
    requires var a := FlashAddress(c, other, off2); PageOf(a) < |m| && m[PageOf(a)].Programmed?
    ensures var w := Written(m, FlashAddress(c, block, off), buffer);
      var a := FlashAddress(c, other, off2);
      w[PageOf(a)].Programmed? && ByteAt(w, a) == ByteAt(m, a)
  {
    var a := FlashAddress(c, other, off2);
    var start := FlashAddress(c, block, off);
    var bs := c.blockSize;
    var ko, kb := other + c.blockOffset, block + c.blockOffset;
    AddressDecode(c, other, off2);
    if off < bs {
      AddressDecode(c, block, off);
      if other < block {
        MulMono(ko + 1, kb, bs);
        assert (ko + 1) * bs == ko * bs + bs;
        assert a < start;
      } else {
        MulMono(kb + 1, ko, bs);
        assert (kb + 1) * bs == kb * bs + bs;
        assert start + |buffer| <= a;
      }
    } else {
      assert |buffer| == 0;
    }
    WrittenFrame(m, start, buffer, a);
  }
}

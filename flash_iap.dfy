/// Model of the LPC55Sxx in-application-programming flash driver (fsl_iap)
/// as McuFlash.c uses it: the driver handle s_flashDriver together with the
/// flash array it erases, verifies, programs and reads.
///
/// The driver's own behaviour is not part of the repository, so each call is
/// modelled by its effect when it works and by a weak frame when it fails.
/// Whether a call fails is taken from a fault script: the i-th driver call
/// still to come fails exactly when faults[i] holds.  Callers never see the
/// script; they only learn that a healthy driver (one whose script holds no
/// fault) performs every call whose parameters are acceptable.
module FlashIap {
  import opened FlashModel

  /** The status_t values the driver reports; McuFlash only tests for Success. */
  datatype Status = Success | AlignmentError | AddressError | Failed

  class FlashDriver {
    /** The number of pages of the flash array. */
    const pageCount: nat
    /** The flash array. */
    var pages: Memory
    /** The scripted outcomes of the driver calls still to come (true: that call fails). */
    var faults: seq<bool>
    /**
     * The number of reads the driver was asked to make of a region inside the
     * flash that holds an erased byte.  On the LPC55Sxx such a read hard-faults;
     * here it only fails, and this count records that it was attempted.
     */
    ghost var erasedReads: nat

    ghost predicate Valid()
      reads this
    {
      |pages| == pageCount && WellFormed(pages)
    }

    /** No call still to come fails. */
    ghost predicate Healthy()
      reads this
    {
      forall i | 0 <= i < |faults| :: !faults[i]
    }

    constructor (initial: Memory, script: seq<bool>)
      requires WellFormed(initial)
      ensures Valid() && pages == initial && faults == script && erasedReads == 0
    {
      pageCount := |initial|;
      pages := initial;
      faults := script;
      erasedReads := 0;
    }

    /** The next driver call does not fail. */
    ghost predicate NextCallSucceeds()
      reads this
    {
      faults == [] || !faults[0]
    }

    /** Consumes the outcome of one driver call from the script. */
    method NextCallFails() returns (fail: bool)
      modifies this`faults
      ensures fail ==> !old(NextCallSucceeds()) && !old(Healthy())
      ensures old(Healthy()) ==> Healthy()
    {
      if faults == [] {
        fail := false;
      } else {
        fail := faults[0];
        faults := faults[1..];
        assert old(faults)[0] == fail;
        assert forall i | 0 <= i < |faults| :: faults[i] == old(faults)[i + 1];
      }
    }

    /** FLASH_Init: fills in the driver handle; the flash array is not touched. */
    method Init() returns (st: Status)
      modifies this`faults
      ensures old(NextCallSucceeds()) ==> st == Success
      ensures old(Healthy()) ==> Healthy()
    {
      var fail := NextCallFails();
      return if fail then Failed else Success;
    }

    /** FLASH_Erase: erases whole pages; start and length must be page multiples. */
    method Erase(start: nat, len: nat) returns (st: Status)
      requires Valid()
      modifies this`pages, this`faults
      ensures Valid()
      ensures start % PAGE_SIZE != 0 || len % PAGE_SIZE != 0 ==>
                st == AlignmentError && pages == old(pages) && faults == old(faults)
      ensures st == Success ==>
                InFlash(old(pages), start, len) && pages == EraseRange(old(pages), PageOf(start), len / PAGE_SIZE)
      ensures st != Success ==> SameOutside(old(pages), pages, PageOf(start), len / PAGE_SIZE)
      ensures old(Healthy()) ==> Healthy()
      ensures old(Healthy()) && start % PAGE_SIZE == 0 && len % PAGE_SIZE == 0 ==>
                (st == Success <==> InFlash(old(pages), start, len))
    {
      if start % PAGE_SIZE != 0 || len % PAGE_SIZE != 0 {
        return AlignmentError;
      }
      if !InFlash(pages, start, len) {
        return AddressError;
      }
      var fail := NextCallFails();
      if fail {
        return Failed;
      }
      pages := EraseRange(pages, PageOf(start), len / PAGE_SIZE);
      return Success;
    }

    /** FLASH_VerifyErase: succeeds only if the whole region is erased. */
    method VerifyErase(start: nat, len: nat) returns (st: Status)
      requires Valid()
      modifies this`faults
      ensures st == Success ==> RegionErased(pages, start, len)
      ensures old(Healthy()) ==> Healthy()
      ensures old(Healthy()) && RegionErased(pages, start, len) ==> st == Success
    {
      if !InFlash(pages, start, len) {
        return AddressError;
      }
      var fail := NextCallFails();
      if fail || !RegionErased(pages, start, len) {
        return Failed;
      }
      return Success;
    }

    /** FLASH_Program: programs whole erased pages with consecutive pages of src. */
    method Program(start: nat, src: seq<byte>) returns (st: Status)
      requires Valid()
      modifies this`pages, this`faults
      ensures Valid()
      ensures start % PAGE_SIZE != 0 || |src| % PAGE_SIZE != 0 ==>
                st == AlignmentError && pages == old(pages) && faults == old(faults)
      ensures st == Success ==>
                && |src| % PAGE_SIZE == 0 && RegionErased(old(pages), start, |src|)
                && pages == ProgramRange(old(pages), PageOf(start), src)
      ensures st != Success ==> SameOutside(old(pages), pages, PageOf(start), |src| / PAGE_SIZE)
      ensures old(Healthy()) ==> Healthy()
      ensures old(Healthy()) && start % PAGE_SIZE == 0 && |src| % PAGE_SIZE == 0 ==>
                (st == Success <==> RegionErased(old(pages), start, |src|))
    {
      if start % PAGE_SIZE != 0 || |src| % PAGE_SIZE != 0 {
        return AlignmentError;
      }
      if !InFlash(pages, start, |src|) {
        return AddressError;
      }
      var fail := NextCallFails();
      if fail || !RegionErased(pages, start, |src|) {
        return Failed;
      }
      pages := ProgramRange(pages, PageOf(start), src);
      return Success;
    }

    /** FLASH_VerifyProgram: succeeds only if the pages from start hold exactly `expected`. */
    method VerifyProgram(start: nat, expected: seq<byte>) returns (st: Status)
      requires Valid()
      modifies this`faults
      ensures st == Success ==>
                && |expected| % PAGE_SIZE == 0 && InFlash(pages, start, |expected|)
                && ProgramRange(pages, PageOf(start), expected) == pages
      ensures old(Healthy()) ==> Healthy()
      ensures old(Healthy()) && start % PAGE_SIZE == 0 && |expected| % PAGE_SIZE == 0 &&
              InFlash(pages, start, |expected|) && ProgramRange(pages, PageOf(start), expected) == pages ==>
                st == Success
    {
      if start % PAGE_SIZE != 0 || |expected| % PAGE_SIZE != 0 {
        return AlignmentError;
      }
      if !InFlash(pages, start, |expected|) {
        return AddressError;
      }
      var fail := NextCallFails();
      if fail || ProgramRange(pages, PageOf(start), expected) != pages {
        return Failed;
      }
      return Success;
    }

    /** FLASH_Read: copies len bytes of a programmed region into dst. */
    method Read(start: nat, dst: array<byte>, len: nat) returns (st: Status)
      requires Valid() && len <= dst.Length
      modifies this`faults, this`erasedReads, dst
      ensures forall i | len <= i < dst.Length :: dst[i] == old(dst[i])
      ensures st == Success ==> RegionProgrammed(pages, start, len) && dst[..len] == Contents(pages, start, len)
      ensures old(Healthy()) ==> Healthy()
      ensures old(Healthy()) && RegionProgrammed(pages, start, len) ==> st == Success
      ensures erasedReads == old(erasedReads) + if InFlash(pages, start, len) && TouchesErased(pages, start, len) then 1 else 0
    {
      if !InFlash(pages, start, len) {
        return AddressError;
      }
      if TouchesErased(pages, start, len) {
        erasedReads := erasedReads + 1;
      }
      var fail := NextCallFails();
      if fail || !RegionProgrammed(pages, start, len) {
        return Failed;
      }
      forall i | 0 <= i < len {
        dst[i] := ByteAt(pages, start + i);
      }
      return Success;
    }
  }
}

/// The McuLFS_isMounted flag of McuLittleFS.c and the functions it guards:
/// McuLFS_Format, McuLFS_Mount, McuLFS_Unmount, McuLFS_Dir, McuLFS_FileList,
/// McuLFS_CopyFile, McuLFS_MoveFile and McuLFS_RemoveFile.
///
/// The littlefs library is not part of this model: what it answers is a
/// parameter of each request, and what the functions ask of it is recorded
/// in a trace of library calls.  The listing loops of Dir and FileList and
/// the copy loop of CopyFile are summarised by whether they succeed.
module McuLfsMount {
  import opened FlashModel

  /** The littlefs success code. */
  const LFS_ERR_OK: int := 0

  /**
   * The library work one guarded function starts, with its result: the
   * return code of lfs_format, lfs_mount, lfs_unmount, lfs_rename or
   * lfs_remove, or whether the directory listing or the copy went through.
   */
  datatype LfsCall =
    | LfsFormat(code: int)
    | LfsMount(code: int)
    | LfsUnmount(code: int)
    | LfsDir(ok: bool)
    | LfsFileList(ok: bool)
    | LfsCopy(ok: bool)
    | LfsRename(code: int)
    | LfsRemove(code: int)

  /** A call of one of the guarded functions, with what the library will answer if asked. */
  datatype Request =
    | FormatReq(code: int)
    | MountReq(code: int)
    | UnmountReq(code: int)
    | DirReq(ok: bool)
    | FileListReq(ok: bool)
    | CopyReq(ok: bool)
    | MoveReq(code: int)
    | RemoveReq(code: int)

  /** The library call a request leads to once it passes its guard. */
  function CallOf(req: Request): LfsCall {
    match req
    case FormatReq(code) => LfsFormat(code)
    case MountReq(code) => LfsMount(code)
    case UnmountReq(code) => LfsUnmount(code)
    case DirReq(ok) => LfsDir(ok)
    case FileListReq(ok) => LfsFileList(ok)
    case CopyReq(ok) => LfsCopy(ok)
    case MoveReq(code) => LfsRename(code)
    case RemoveReq(code) => LfsRemove(code)
  }

  /** Whether the library reports success: the equality tests for format, mount and unmount, the sign test for rename and remove. */
  predicate Succeeded(call: LfsCall) {
    match call
    case LfsFormat(code) => code == LFS_ERR_OK
    case LfsMount(code) => code == LFS_ERR_OK
    case LfsUnmount(code) => code == LFS_ERR_OK
    case LfsDir(ok) => ok
    case LfsFileList(ok) => ok
    case LfsCopy(ok) => ok
    case LfsRename(code) => code >= 0
    case LfsRemove(code) => code >= 0
  }

  /** Format and mount need an unmounted file system; everything else a mounted one. */
  predicate NeedsUnmounted(call: LfsCall) {
    call.LfsFormat? || call.LfsMount?
  }

  /** The new flag, the return code and the library calls made, for one guarded function. */
  datatype Outcome = Outcome(mounted: bool, res: ErrCode, calls: seq<LfsCall>)

  /**
   * One guarded function on the flag `mounted`: the library is asked only
   * when the flag allows the call; the function succeeds exactly when the
   * library does; only a successful mount sets the flag and only a
   * successful unmount clears it.
   */
  function Step(mounted: bool, req: Request): (o: Outcome)
    ensures o.res == ErrOk || o.res == ErrFailed
    ensures o.calls == [] || o.calls == [CallOf(req)]
    ensures o.calls == [] <==> mounted == NeedsUnmounted(CallOf(req))
    ensures o.calls == [] ==> o.res == ErrFailed && o.mounted == mounted
    ensures o.res == ErrOk <==> o.calls != [] && Succeeded(CallOf(req))
    ensures o.mounted != mounted <==>
      o.calls == [LfsMount(LFS_ERR_OK)] || o.calls == [LfsUnmount(LFS_ERR_OK)]
  {
    match req
    case FormatReq(code) =>
      if mounted then Outcome(mounted, ErrFailed, [])
      else Outcome(mounted, if code == LFS_ERR_OK then ErrOk else ErrFailed, [LfsFormat(code)])
    case MountReq(code) =>
      if mounted then Outcome(mounted, ErrFailed, [])
      else if code == LFS_ERR_OK then Outcome(true, ErrOk, [LfsMount(code)])
      else Outcome(mounted, ErrFailed, [LfsMount(code)])
    case UnmountReq(code) =>
      if !mounted then Outcome(mounted, ErrFailed, [])
      else if code == LFS_ERR_OK then Outcome(false, ErrOk, [LfsUnmount(code)])
      else Outcome(mounted, ErrFailed, [LfsUnmount(code)])
    case DirReq(ok) =>
      if !mounted then Outcome(mounted, ErrFailed, [])
      else Outcome(mounted, if ok then ErrOk else ErrFailed, [LfsDir(ok)])
    case FileListReq(ok) =>
      if !mounted then Outcome(mounted, ErrFailed, [])
      else Outcome(mounted, if ok then ErrOk else ErrFailed, [LfsFileList(ok)])
    case CopyReq(ok) =>
      if !mounted then Outcome(mounted, ErrFailed, [])
      else Outcome(mounted, if ok then ErrOk else ErrFailed, [LfsCopy(ok)])
    case MoveReq(code) =>
      if !mounted then Outcome(mounted, ErrFailed, [])
      else Outcome(mounted, if code < 0 then ErrFailed else ErrOk, [LfsRename(code)])
    case RemoveReq(code) =>
      if !mounted then Outcome(mounted, ErrFailed, [])
      else Outcome(mounted, if code < 0 then ErrFailed else ErrOk, [LfsRemove(code)])
  }

  // ---------------------------------------------------------------------------
  // The library's side

  /** Whether the library holds a mounted file system after `call`, when it did (`mounted`) before. */
  function After(mounted: bool, call: LfsCall): bool {
    if call == LfsMount(LFS_ERR_OK) then true
    else if call == LfsUnmount(LFS_ERR_OK) then false
    else mounted
  }

  /** Whether the library holds a mounted file system after the calls of trace. */
  function LibMounted(mounted0: bool, trace: seq<LfsCall>): bool
    decreases |trace|
  {
    if trace == [] then mounted0 else LibMounted(After(mounted0, trace[0]), trace[1..])
  }

  /**
   * Every call of trace finds the library in the state it needs: format and
   * mount an unmounted file system, everything else a mounted one.
   */
  predicate ProperUse(mounted0: bool, trace: seq<LfsCall>)
    decreases |trace|
  {
    trace == [] ||
    (mounted0 != NeedsUnmounted(trace[0]) && ProperUse(After(mounted0, trace[0]), trace[1..]))
  }

  lemma {:induction false} LibMountedAppend(mounted0: bool, t: seq<LfsCall>, u: seq<LfsCall>)
    ensures LibMounted(mounted0, t + u) == LibMounted(LibMounted(mounted0, t), u)
    decreases |t|
  {
    if t == [] {
      assert t + u == u;
    } else {
      assert (t + u)[0] == t[0] && (t + u)[1..] == t[1..] + u;
      LibMountedAppend(After(mounted0, t[0]), t[1..], u);
    }
  }

  /** A trace is used properly exactly when its first part is and its rest is from where that part leaves the library. */
  lemma {:induction false} ProperUseAppend(mounted0: bool, t: seq<LfsCall>, u: seq<LfsCall>)
    ensures ProperUse(mounted0, t + u) <==> ProperUse(mounted0, t) && ProperUse(LibMounted(mounted0, t), u)
    decreases |t|
  {
    if t == [] {
      assert t + u == u;
    } else {
      assert (t + u)[0] == t[0] && (t + u)[1..] == t[1..] + u;
      ProperUseAppend(After(mounted0, t[0]), t[1..], u);
    }
  }

  /**
   * A guarded function uses the library properly, and leaves the flag
   * telling whether the library holds a mounted file system, when the flag
   * told so before.
   */
  lemma StepUsesLibraryProperly(mounted: bool, req: Request)
    ensures var o := Step(mounted, req);
      ProperUse(mounted, o.calls) && o.mounted == LibMounted(mounted, o.calls)
  {
    var o := Step(mounted, req);
    if o.calls != [] {
      assert o.calls[1..] == [];
    }
  }

  /** The same after the library calls of `trace`, for the flag kept by McuLfs. */
  lemma StepKeepsAgreement(trace: seq<LfsCall>, mounted: bool, req: Request)
    requires ProperUse(false, trace) && mounted == LibMounted(false, trace)
    ensures var o := Step(mounted, req);
      ProperUse(false, trace + o.calls) && o.mounted == LibMounted(false, trace + o.calls)
  {
    var o := Step(mounted, req);
    StepUsesLibraryProperly(mounted, req);
    ProperUseAppend(false, trace, o.calls);
    LibMountedAppend(false, trace, o.calls);
  }

  /** The outcome of a sequence of guarded calls from the flag `mounted`. */
  function Run(mounted: bool, reqs: seq<Request>): Outcome
    decreases |reqs|
  {
    if reqs == [] then Outcome(mounted, ErrOk, [])
    else
      var first := Step(mounted, reqs[0]);
      var rest := Run(first.mounted, reqs[1..]);
      Outcome(rest.mounted, rest.res, first.calls + rest.calls)
  }

  /**
   * Any sequence of guarded calls uses the library properly, and the flag
   * always tells whether the library holds a mounted file system: lfs_mount
   * and lfs_format are never called on a mounted file system, nothing else
   * on an unmounted one.
   */
  lemma {:induction false} RunUsesLibraryProperly(mounted: bool, reqs: seq<Request>)
    ensures var o := Run(mounted, reqs);
      ProperUse(mounted, o.calls) && o.mounted == LibMounted(mounted, o.calls)
    decreases |reqs|
  {
    if reqs != [] {
      var first := Step(mounted, reqs[0]);
      var rest := Run(first.mounted, reqs[1..]);
      StepUsesLibraryProperly(mounted, reqs[0]);
      RunUsesLibraryProperly(first.mounted, reqs[1..]);
      ProperUseAppend(mounted, first.calls, rest.calls);
      LibMountedAppend(mounted, first.calls, rest.calls);
    }
  }

  // ---------------------------------------------------------------------------
  // The module state

  /** McuLFS_isMounted together with the library calls made so far. */
  class McuLfs {
    var isMounted: bool
    ghost var calls: seq<LfsCall>

    /** The flag agrees with the library, which has been used properly. */
    ghost predicate Valid()
      reads this
    {
      ProperUse(false, calls) && isMounted == LibMounted(false, calls)
    }

    /** The flag starts cleared, before any library call. */
    constructor ()
      ensures Valid() && !isMounted && calls == []
    {
      isMounted := false;
      calls := [];
    }

    /** McuLFS_Format. */
    method Format(code: int) returns (res: ErrCode)
      requires Valid()
      modifies this
      ensures Valid()
      ensures var o := Step(old(isMounted), FormatReq(code));
        isMounted == o.mounted && res == o.res && calls == old(calls) + o.calls
    {
      StepKeepsAgreement(calls, isMounted, FormatReq(code));
      if isMounted {
        return ErrFailed;
      }
      calls := calls + [LfsFormat(code)];
      if code == LFS_ERR_OK {
        return ErrOk;
      } else {
        return ErrFailed;
      }
    }

    /** McuLFS_Mount. */
    method Mount(code: int) returns (res: ErrCode)
      requires Valid()
      modifies this
      ensures Valid()
      ensures var o := Step(old(isMounted), MountReq(code));
        isMounted == o.mounted && res == o.res && calls == old(calls) + o.calls
    {
      StepKeepsAgreement(calls, isMounted, MountReq(code));
      if isMounted {
        return ErrFailed;
      }
      calls := calls + [LfsMount(code)];
      if code == LFS_ERR_OK {
        isMounted := true;
        return ErrOk;
      } else {
        return ErrFailed;
      }
    }

    /** McuLFS_Unmount. */
    method Unmount(code: int) returns (res: ErrCode)
      requires Valid()
      modifies this
      ensures Valid()
      ensures var o := Step(old(isMounted), UnmountReq(code));
        isMounted == o.mounted && res == o.res && calls == old(calls) + o.calls
    {
      StepKeepsAgreement(calls, isMounted, UnmountReq(code));
      if !isMounted {
        return ErrFailed;
      }
      calls := calls + [LfsUnmount(code)];
      if code == LFS_ERR_OK {
        isMounted := false;
        return ErrOk;
      } else {
        return ErrFailed;
      }
    }

    /** McuLFS_Dir: `ok` says whether opening, reading and closing the directory went through. */
    method Dir(ok: bool) returns (res: ErrCode)
      requires Valid()
      modifies this
      ensures Valid()
      ensures var o := Step(old(isMounted), DirReq(ok));
        isMounted == o.mounted && res == o.res && calls == old(calls) + o.calls
    {
      StepKeepsAgreement(calls, isMounted, DirReq(ok));
      if !isMounted {
        return ErrFailed;
      }
      calls := calls + [LfsDir(ok)];
      res := if ok then ErrOk else ErrFailed;
    }

    /** McuLFS_FileList: `ok` says whether opening, reading and closing the directory went through. */
    method FileList(ok: bool) returns (res: ErrCode)
      requires Valid()
      modifies this
      ensures Valid()
      ensures var o := Step(old(isMounted), FileListReq(ok));
        isMounted == o.mounted && res == o.res && calls == old(calls) + o.calls
    {
      StepKeepsAgreement(calls, isMounted, FileListReq(ok));
      if !isMounted {
        return ErrFailed;
      }
      calls := calls + [LfsFileList(ok)];
      res := if ok then ErrOk else ErrFailed;
    }

    /** McuLFS_CopyFile: `ok` says whether opening, copying and closing both files went through. */
    method CopyFile(ok: bool) returns (res: ErrCode)
      requires Valid()
      modifies this
      ensures Valid()
      ensures var o := Step(old(isMounted), CopyReq(ok));
        isMounted == o.mounted && res == o.res && calls == old(calls) + o.calls
    {
      StepKeepsAgreement(calls, isMounted, CopyReq(ok));
      if !isMounted {
        return ErrFailed;
      }
      calls := calls + [LfsCopy(ok)];
      res := if ok then ErrOk else ErrFailed;
    }

    /** McuLFS_MoveFile: `code` is what lfs_rename returns. */
    method MoveFile(code: int) returns (res: ErrCode)
      requires Valid()
      modifies this
      ensures Valid()
      ensures var o := Step(old(isMounted), MoveReq(code));
        isMounted == o.mounted && res == o.res && calls == old(calls) + o.calls
    {
      StepKeepsAgreement(calls, isMounted, MoveReq(code));
      if !isMounted {
        return ErrFailed;
      }
      calls := calls + [LfsRename(code)];
      if code < 0 {
        return ErrFailed;
      }
      return ErrOk;
    }

    /** McuLFS_RemoveFile: `code` is what lfs_remove returns. */
    method RemoveFile(code: int) returns (res: ErrCode)
      requires Valid()
      modifies this
      ensures Valid()
      ensures var o := Step(old(isMounted), RemoveReq(code));
        isMounted == o.mounted && res == o.res && calls == old(calls) + o.calls
    {
      StepKeepsAgreement(calls, isMounted, RemoveReq(code));
      if !isMounted {
        return ErrFailed;
      }
      calls := calls + [LfsRemove(code)];
      if code < 0 {
        return ErrFailed;
      }
      return ErrOk;
    }
  }
}

/// The line-oriented text helpers of McuLittleFS.c (McuLFS_gets, putc_bfd,
/// McuLFS_puts, McuLFS_readLine, McuLFS_writeLine) over an open littlefs file.
///
/// The littlefs library is not part of this model.  An open file is modelled
/// by what the helpers can observe of it: the characters still to be read,
/// the characters written so far, the space the file system has left, and a
/// script of the lfs_file_write calls still to come that fail for reasons
/// other than space (an I/O error from the block device, corruption, a file
/// grown too large).
module McuLfsText {
  import opened FlashModel

  /** The littlefs error code for a full file system. */
  const LFS_ERR_NOSPC: int := -28

  // ---------------------------------------------------------------------------
  // The file

  /** A littlefs error code: a negative 32-bit int. */
  type LfsError = x: int | -0x8000_0000 <= x < 0 witness -5

  /**
   * How one lfs_file_write call ends: as the space left dictates, or with
   * the error `err` after `kept` of its bytes reached the file.
   */
  datatype WriteOutcome = AsSpace | Fails(err: LfsError, kept: nat)

  /** The outcome of the next write; past the end of the script every write goes as the space dictates. */
  function NextOutcome(script: seq<WriteOutcome>): WriteOutcome {
    if script == [] then AsSpace else script[0]
  }

  /** The script once one write has used its entry. */
  function RestScript(script: seq<WriteOutcome>): (r: seq<WriteOutcome>)
    ensures |r| <= |script|
  {
    if script == [] then [] else script[1..]
  }

  /** No write still to come fails for any reason but a lack of space. */
  predicate NoWriteFaults(script: seq<WriteOutcome>) {
    forall i | 0 <= i < |script| :: script[i] == AsSpace
  }

  /**
   * How many of n bytes reach the file when the file system has room for
   * `room` more: all of them, when the write goes through; none, when it is
   * refused for lack of space; at most `kept` when it fails otherwise.
   */
  function Kept(room: nat, n: nat, o: WriteOutcome): (k: nat)
    ensures k <= n && k <= room
    ensures o == AsSpace && n <= room ==> k == n
    ensures o == AsSpace && room < n ==> k == 0
  {
    match o
    case AsSpace => if n <= room then n else 0
    case Fails(_, kept) => if kept <= n && kept <= room then kept else if n <= room then n else room
  }

  /**
   * The value lfs_file_write returns: n when the whole write went through,
   * otherwise a negative error code, LFS_ERR_NOSPC when the space ran out.
   * littlefs never reports a short write.
   */
  function WriteCount(room: nat, n: nat, o: WriteOutcome): (r: int)
    ensures r >= 0 <==> o == AsSpace && n <= room
    ensures r >= 0 ==> r == n && Kept(room, n, o) == n
    ensures o == AsSpace && room < n ==> r == LFS_ERR_NOSPC
  {
    match o
    case AsSpace => if n <= room then n else LFS_ERR_NOSPC
    case Fails(err, _) => err
  }

  /** An open lfs_file_t together with the file system behind it. */
  class LfsFile {
    /** The characters from the read position to the end of the file. */
    var unread: seq<char>
    /** The characters written through lfs_file_write, in order. */
    var written: seq<char>
    /** The number of bytes the file system can still take. */
    var room: nat
    /** The outcomes of the lfs_file_write calls still to come. */
    var script: seq<WriteOutcome>
    var isOpen: bool

    constructor (content: seq<char>, space: nat, writes: seq<WriteOutcome>)
      ensures unread == content && written == [] && room == space && script == writes && isOpen
    {
      unread := content;
      written := [];
      room := space;
      script := writes;
      isOpen := true;
    }

    /** lfs_file_read of one byte: returns 1 and the next character, or 0 at the end of the file. */
    method ReadByte() returns (count: int, c: char)
      modifies this`unread
      ensures old(unread) == [] ==> count == 0 && unread == []
      ensures old(unread) != [] ==> count == 1 && c == old(unread)[0] && unread == old(unread)[1..]
    {
      if unread == [] {
        return 0, '\0';
      }
      count, c := 1, unread[0];
      unread := unread[1..];
    }

    /** lfs_file_write of the first n bytes of buf. */
    method Write(buf: array<char>, n: nat) returns (count: int)
      requires n <= buf.Length
      modifies this`written, this`room, this`script
      ensures var o := NextOutcome(old(script));
        && count == WriteCount(old(room), n, o)
        && written == old(written) + buf[..Kept(old(room), n, o)]
        && room == old(room) - Kept(old(room), n, o)
      ensures script == RestScript(old(script))
    {
      var o := NextOutcome(script);
      count := WriteCount(room, n, o);
      var k := Kept(room, n, o);
      written := written + buf[..k];
      room := room - k;
      script := RestScript(script);
    }

    /** lfs_file_close. */
    method Close()
      modifies this`isOpen
      ensures !isOpen
    {
      isOpen := false;
    }
  }

  // ---------------------------------------------------------------------------
  // Line ends

  /** s without its carriage returns. */
  function DropCr(s: seq<char>): (r: seq<char>)
    ensures '\r' !in r && |r| <= |s|
  {
    if s == [] then []
    else (if s[0] == '\r' then [] else [s[0]]) + DropCr(s[1..])
  }

  /** The characters puts writes for c: a line feed becomes a carriage return and a line feed. */
  function CrLfChar(c: char): (r: seq<char>)
    ensures DropCr(r) == DropCr([c])
  {
    if c == '\n' then ['\r', '\n'] else [c]
  }

  /** s with every line feed preceded by a carriage return. */
  function CrLf(s: seq<char>): (r: seq<char>)
    ensures |s| <= |r|
  {
    if s == [] then [] else CrLfChar(s[0]) + CrLf(s[1..])
  }

  lemma {:induction false} DropCrConcat(a: seq<char>, b: seq<char>)
    ensures DropCr(a + b) == DropCr(a) + DropCr(b)
  {
    if a == [] {
      assert a + b == b;
    } else {
      assert (a + b)[0] == a[0];
      assert (a + b)[1..] == a[1..] + b;
      DropCrConcat(a[1..], b);
    }
  }

  /** What puts writes, read back with its carriage returns dropped, is the text without its own. */
  lemma {:induction false} DropCrCrLf(s: seq<char>)
    ensures DropCr(CrLf(s)) == DropCr(s)
  {
    if s != [] {
      DropCrCrLf(s[1..]);
      DropCrConcat(CrLfChar(s[0]), CrLf(s[1..]));
      DropCrConcat([s[0]], s[1..]);
      assert s == [s[0]] + s[1..];
    }
  }

  // ---------------------------------------------------------------------------
  // McuLFS_gets

  /** What one McuLFS_gets call stores and how many characters it consumes. */
  datatype LineRead = LineRead(stored: seq<char>, consumed: nat)

  /** A line read that starts after `prefix` was stored from `taken` consumed characters. */
  function Join(prefix: seq<char>, taken: nat, r: LineRead): LineRead {
    LineRead(prefix + r.stored, taken + r.consumed)
  }

  /**
   * McuLFS_gets on the characters of `input` from index `from` on, with room
   * for `limit` characters: carriage returns are dropped, and reading stops
   * after the first line feed, when `limit` characters are stored, or at the
   * end of the file.
   */
  function GetLine(input: seq<char>, from: nat, limit: nat): (r: LineRead)
    requires from <= |input|
    ensures r.consumed <= |input| - from && |r.stored| <= limit
    decreases |input| - from
  {
    if limit == 0 || from == |input| then LineRead([], 0)
    else if input[from] == '\r' then
      var rest := GetLine(input, from + 1, limit);
      LineRead(rest.stored, rest.consumed + 1)
    else if input[from] == '\n' then LineRead(['\n'], 1)
    else
      var rest := GetLine(input, from + 1, limit - 1);
      LineRead([input[from]] + rest.stored, rest.consumed + 1)
  }

  /** What McuLFS_gets stores is exactly the input it consumed, without its carriage returns. */
  lemma {:induction false} GetLineStored(input: seq<char>, from: nat, limit: nat)
    requires from <= |input|
    ensures var r := GetLine(input, from, limit);
      r.stored == DropCr(input[from..from + r.consumed])
    decreases |input| - from
  {
    if limit == 0 || from == |input| {
      assert input[from..from] == [];
    } else if input[from] == '\n' {
      assert input[from..from + 1] == [input[from]];
    } else {
      var c := input[from];
      var limit' := if c == '\r' then limit else limit - 1;
      var rest := GetLine(input, from + 1, limit');
      var tail := input[from + 1..from + 1 + rest.consumed];
      GetLineStored(input, from + 1, limit');
      var consumed := input[from..from + rest.consumed + 1];
      assert consumed[0] == c && consumed[1..] == tail;
      assert GetLine(input, from, limit).consumed == rest.consumed + 1;
    }
  }

  /**
   * McuLFS_gets consumes nothing past the first line feed, and it stores a
   * line feed exactly when the last character it consumed is one.
   */
  lemma {:induction false} GetLineNewline(input: seq<char>, from: nat, limit: nat)
    requires from <= |input|
    ensures var r := GetLine(input, from, limit);
      && (forall i | from <= i < from + r.consumed - 1 :: input[i] != '\n')
      && ('\n' in r.stored <==> 0 < r.consumed && input[from + r.consumed - 1] == '\n')
    decreases |input| - from
  {
    if limit != 0 && from < |input| && input[from] != '\n' {
      var c := input[from];
      var limit' := if c == '\r' then limit else limit - 1;
      GetLineNewline(input, from + 1, limit');
    }
  }

  /** McuLFS_gets stops only at the end of the file, with a full buffer or after a line feed. */
  lemma {:induction false} GetLineStops(input: seq<char>, from: nat, limit: nat)
    requires from <= |input|
    ensures var r := GetLine(input, from, limit);
      || from + r.consumed == |input|
      || |r.stored| == limit
      || (0 < r.consumed && input[from + r.consumed - 1] == '\n')
    decreases |input| - from
  {
    if limit != 0 && from < |input| && input[from] != '\n' {
      var c := input[from];
      var limit' := if c == '\r' then limit else limit - 1;
      GetLineStops(input, from + 1, limit');
    }
  }

  /** The number of characters McuLFS_gets may store in a buffer of len characters. */
  function GetsLimit(len: int): nat {
    if len > 1 then len - 1 else 0
  }

  /**
   * McuLFS_gets: reads one line into buff, NUL-terminated; returns whether any
   * character was stored (buff or a null pointer in the source).
   */
  method Gets(buff: array<char>, len: int, fp: LfsFile) returns (found: bool)
    requires 1 <= buff.Length && len <= buff.Length
    modifies buff, fp`unread
    ensures var r := GetLine(old(fp.unread), 0, GetsLimit(len));
      && buff[..|r.stored|] == r.stored && buff[|r.stored|] == '\0'
      && (forall i | |r.stored| < i < buff.Length :: buff[i] == old(buff[i]))
      && fp.unread == old(fp.unread)[r.consumed..]
      && (found <==> r.stored != [])
  {
    var n := GetsFill(buff, len, fp);
    buff[n] := '\0';
    found := n != 0;
  }

  /** The reading loop of McuLFS_gets; returns the number of characters stored. */
  method GetsFill(buff: array<char>, len: int, fp: LfsFile) returns (n: nat)
    requires 1 <= buff.Length && len <= buff.Length
    modifies buff, fp`unread
    ensures var r := GetLine(old(fp.unread), 0, GetsLimit(len));
      && n == |r.stored| < buff.Length
      && buff[..n] == r.stored && (forall i | n <= i < buff.Length :: buff[i] == old(buff[i]))
      && fp.unread == old(fp.unread)[r.consumed..]
  {
    ghost var input := fp.unread;
    ghost var limit := GetsLimit(len);
    ghost var goal := GetLine(input, 0, limit);
    ghost var stored: seq<char> := [];
    ghost var taken: nat := 0;
    n := 0;
    while n < len - 1
      invariant n == |stored| <= limit && taken <= |input|
      invariant fp.unread == input[taken..]
      invariant buff[..n] == stored
      invariant forall i | n <= i < buff.Length :: buff[i] == old(buff[i])
      invariant goal == Join(stored, taken, GetLine(input, taken, limit - n))
      decreases |input| - taken
    {
      var rc, c := fp.ReadByte();
      if rc != 1 {
        assert taken == |input|;
        assert goal == LineRead(stored, taken);
        break;
      }
      GetsAdvance(goal, input, taken, limit - n, stored);
      taken := taken + 1;
      if c != '\r' {
        buff[n] := c;
        assert buff[..n + 1] == stored + [c];
        stored := stored + [c];
        n := n + 1;
        if c == '\n' {
          assert goal == LineRead(stored, taken);
          break;
        }
      }
    }
    assert goal == LineRead(stored, taken);
  }

  /**
   * McuLFS_gets consuming one more character: a carriage return is skipped, a
   * line feed is stored and ends the line, anything else is stored.
   */
  lemma GetsAdvance(goal: LineRead, input: seq<char>, i: nat, limit: nat, stored: seq<char>)
    requires i < |input| && 0 < limit && goal == Join(stored, i, GetLine(input, i, limit))
    ensures var c := input[i];
      && (c == '\r' ==> goal == Join(stored, i + 1, GetLine(input, i + 1, limit)))
      && (c == '\n' ==> goal == LineRead(stored + [c], i + 1))
      && (c != '\r' && c != '\n' ==> goal == Join(stored + [c], i + 1, GetLine(input, i + 1, limit - 1)))
  {
    var c := input[i];
    if c != '\r' && c != '\n' {
      var r := GetLine(input, i + 1, limit - 1);
      assert stored + ([c] + r.stored) == (stored + [c]) + r.stored;
    }
  }

  // ---------------------------------------------------------------------------
  // putc_bfd and McuLFS_puts

  /** The size of the putbuff buffer. */
  const PUT_BUF_SIZE: nat := 64
  /** putc_bfd writes the buffer out once it holds this many characters (sizeof buf - 3). */
  const FLUSH_AT: nat := PUT_BUF_SIZE - 3

  /**
   * The state putc_bfd works on: the buffer index (-1 after a failed write),
   * the character count, the buffered characters, and what the file has
   * received so far together with its remaining room and write script.
   */
  datatype PutState = PutState(idx: int, nchr: int, pending: seq<char>, out: seq<char>, room: nat,
                               script: seq<WriteOutcome>)

  /** A fresh putbuff in front of a file that already holds out0, has room0 left and will see script0. */
  function PutInit(out0: seq<char>, room0: nat, script0: seq<WriteOutcome>): PutState {
    PutState(0, 0, [], out0, room0, script0)
  }

  /** putc_bfd for one character, after the line-feed conversion. */
  function Emit(s: PutState, c: char): PutState {
    if s.idx < 0 then s
    else
      var p := s.pending + [c];
      if |p| < FLUSH_AT then s.(idx := |p|, nchr := s.nchr + 1, pending := p)
      else
        var o := NextOutcome(s.script);
        var k := Kept(s.room, |p|, o);
        PutState(if WriteCount(s.room, |p|, o) == |p| then 0 else -1, s.nchr + 1, [],
                 s.out + p[..k], s.room - k, RestScript(s.script))
  }

  /** putc_bfd: a line feed first puts a carriage return. */
  function PutcStep(s: PutState, c: char): PutState {
    if c == '\n' then Emit(Emit(s, '\r'), '\n') else Emit(s, c)
  }

  /** The putc_bfd calls of McuLFS_puts, one per character of str. */
  function PutAll(s: PutState, str: seq<char>): PutState
    decreases |str|
  {
    if str == [] then s else PutAll(PutcStep(s, str[0]), str[1..])
  }

  /** What McuLFS_puts returns, and the file afterwards. */
  datatype PutsOutcome = PutsOutcome(result: int, out: seq<char>, room: nat, script: seq<WriteOutcome>)

  /**
   * The last step of McuLFS_puts: write out what is still buffered and
   * report the count, or -1 after any failed write.  The write is skipped
   * once the index is -1 (see PutsFinalWriteSize for the code as written).
   */
  function PutsFinish(s: PutState): PutsOutcome {
    if s.idx < 0 then PutsOutcome(-1, s.out, s.room, s.script)
    else
      var o := NextOutcome(s.script);
      var k := Kept(s.room, |s.pending|, o);
      PutsOutcome(if WriteCount(s.room, |s.pending|, o) == |s.pending| then s.nchr else -1,
                  s.out + s.pending[..k], s.room - k, RestScript(s.script))
  }

  /** The length argument McuLFS_puts passes to its last lfs_file_write: (uint32_t)pb.idx. */
  function PutsFinalWriteSize(s: PutState): (n: nat)
    ensures n < 0x1_0000_0000
    ensures 0 <= s.idx < 0x1_0000_0000 ==> n == s.idx
  {
    s.idx % 0x1_0000_0000
  }

  /**
   * What stays true while putc_bfd runs on a file that held out0 with room0
   * left, after the characters `sent` were put: the file only grows and
   * every byte it received was put; while the index is valid, the file and
   * the buffer together hold exactly what was put, the count is right, and
   * every write so far was a full one of FLUSH_AT characters.  When the
   * file's script held no failures (`healthy`), none is left, and the index
   * is -1 only when more was put than the file had room for.
   */
  predicate PutInv(s: PutState, out0: seq<char>, room0: nat, sent: seq<char>, healthy: bool) {
    && |out0| <= |s.out| && s.out[..|out0|] == out0
    && s.room + |s.out| == room0 + |out0|
    && (healthy ==> NoWriteFaults(s.script))
    && (s.idx >= 0 ==>
          && s.idx == |s.pending| < FLUSH_AT
          && s.out + s.pending == out0 + sent
          && s.nchr == |sent|
          && (|s.out| - |out0|) % FLUSH_AT == 0)
    && (s.idx < 0 ==>
          && s.idx == -1 && s.pending == []
          && (healthy ==> room0 < |sent|)
          && |s.out| <= |out0| + |sent| && s.out[|out0|..] == sent[..|s.out| - |out0|])
  }

  lemma EmitInv(s: PutState, c: char, out0: seq<char>, room0: nat, sent: seq<char>, healthy: bool)
    requires PutInv(s, out0, room0, sent, healthy)
    ensures PutInv(Emit(s, c), out0, room0, sent + [c], healthy)
  {
    var s' := Emit(s, c);
    var sent' := sent + [c];
    if s.idx >= 0 {
      var p := s.pending + [c];
      assert s.out + p == (s.out + s.pending) + [c];
      if |p| >= FLUSH_AT {
        var o := NextOutcome(s.script);
        var k := Kept(s.room, |p|, o);
        assert healthy ==> o == AsSpace;
        assert s'.out[..|out0|] == out0 by {
          assert s'.out[..|out0|] == s.out[..|out0|];
        }
        assert s'.out == (out0 + sent')[..|s.out| + k] by {
          assert (s.out + p)[..|s.out| + k] == s.out + p[..k];
        }
        if s'.idx >= 0 {
          assert |s'.out| - |out0| == |s.out| - |out0| + FLUSH_AT;
        }
      }
    } else {
      assert sent'[..|s.out| - |out0|] == sent[..|s.out| - |out0|];
    }
  }

  /** The characters put for one character of the string. */
  lemma PutcStepInv(s: PutState, c: char, out0: seq<char>, room0: nat, sent: seq<char>, healthy: bool)
    requires PutInv(s, out0, room0, sent, healthy)
    ensures PutInv(PutcStep(s, c), out0, room0, sent + CrLfChar(c), healthy)
  {
    if c == '\n' {
      EmitInv(s, '\r', out0, room0, sent, healthy);
      EmitInv(Emit(s, '\r'), '\n', out0, room0, sent + ['\r'], healthy);
      assert sent + ['\r'] + ['\n'] == sent + CrLfChar(c);
    } else {
      EmitInv(s, c, out0, room0, sent, healthy);
    }
  }

  lemma {:induction false} PutAllInv(s: PutState, str: seq<char>, out0: seq<char>, room0: nat, sent: seq<char>,
                                     healthy: bool)
    requires PutInv(s, out0, room0, sent, healthy)
    ensures PutInv(PutAll(s, str), out0, room0, sent + CrLf(str), healthy)
    decreases |str|
  {
    if str != [] {
      PutcStepInv(s, str[0], out0, room0, sent, healthy);
      PutAllInv(PutcStep(s, str[0]), str[1..], out0, room0, sent + CrLfChar(str[0]), healthy);
      assert sent + CrLfChar(str[0]) + CrLf(str[1..]) == sent + CrLf(str);
    }
  }

  /** Once the index is -1, putc_bfd does nothing more: the error is sticky. */
  lemma {:induction false} PutAllSticky(s: PutState, str: seq<char>)
    requires s.idx < 0
    ensures PutAll(s, str) == s
    decreases |str|
  {
    if str != [] {
      PutAllSticky(PutcStep(s, str[0]), str[1..]);
    }
  }

  /** The invariant over a whole McuLFS_puts run. */
  lemma PutsRunInv(str: seq<char>, out0: seq<char>, room0: nat, script0: seq<WriteOutcome>)
    ensures PutInv(PutAll(PutInit(out0, room0, script0), str), out0, room0, CrLf(str), NoWriteFaults(script0))
  {
    assert out0 + [] == out0;
    PutAllInv(PutInit(out0, room0, script0), str, out0, room0, [], NoWriteFaults(script0));
  }

  /**
   * The final flush of McuLFS_puts: a non-negative result means everything
   * put reached the file and is the count of it; with a healthy file, the
   * result is non-negative exactly when it all fitted.  In every case the
   * file holds a prefix of what was put.
   */
  lemma PutsFinishInv(s: PutState, out0: seq<char>, room0: nat, sent: seq<char>, healthy: bool)
    requires PutInv(s, out0, room0, sent, healthy)
    ensures var o := PutsFinish(s);
      && (o.result >= 0 ==> o.result == |sent| && o.out == out0 + sent && o.room == room0 - |sent|)
      && (healthy ==> (o.result >= 0 <==> |sent| <= room0))
      && |out0| <= |o.out| <= |out0| + |sent|
      && o.out == out0 + sent[..|o.out| - |out0|]
      && o.room + |o.out| == room0 + |out0|
  {
    var o := PutsFinish(s);
    if s.idx >= 0 {
      var w := NextOutcome(s.script);
      var k := Kept(s.room, |s.pending|, w);
      assert healthy ==> w == AsSpace;
      assert (s.out + s.pending)[..|s.out| + k] == s.out + s.pending[..k];
      assert o.out == (out0 + sent)[..|s.out| + k];
    } else {
      assert s.out == s.out[..|out0|] + s.out[|out0|..];
    }
  }

  /**
   * McuLFS_puts returns a non-negative count only when the whole string,
   * with every line feed turned into CR LF, reached the file, and the count
   * is then its length.  With a file whose writes fail only for lack of
   * space, that happens exactly when the text fits in the room left.
   * Whatever happens, the file received a prefix of that text and nothing else.
   */
  lemma PutsOutcomeIff(str: seq<char>, out0: seq<char>, room0: nat, script0: seq<WriteOutcome>)
    ensures var o := PutsFinish(PutAll(PutInit(out0, room0, script0), str));
      && (o.result >= 0 ==>
            o.result == |CrLf(str)| && o.out == out0 + CrLf(str) && o.room == room0 - |CrLf(str)|)
      && (NoWriteFaults(script0) ==> (o.result >= 0 <==> |CrLf(str)| <= room0))
      && |out0| <= |o.out| <= |out0| + |CrLf(str)|
      && o.out == out0 + CrLf(str)[..|o.out| - |out0|]
      && o.room + |o.out| == room0 + |out0|
  {
    PutsRunInv(str, out0, room0, script0);
    PutsFinishInv(PutAll(PutInit(out0, room0, script0), str), out0, room0, CrLf(str), NoWriteFaults(script0));
  }

  /**
   * With less room than one buffer and at least one buffer's worth of text,
   * the first flush fails and leaves the index at -1; McuLFS_puts as
   * written then still calls lfs_file_write with (uint32_t)-1 as the length,
   * far more than the 64-byte buffer holds.
   */
  lemma PutsFinalWriteOverrun(str: seq<char>, out0: seq<char>, room0: nat, script0: seq<WriteOutcome>)
    requires room0 < FLUSH_AT <= |CrLf(str)|
    ensures PutAll(PutInit(out0, room0, script0), str).idx == -1
    ensures PutsFinalWriteSize(PutAll(PutInit(out0, room0, script0), str)) == 0xFFFF_FFFF > PUT_BUF_SIZE
  {
    PutsRunInv(str, out0, room0, script0);
  }

  /** A concrete input for the overrun: 61 letters on a full file system. */
  lemma PutsFinalWriteOverrunExample()
    ensures var s := PutAll(PutInit([], 0, []), seq(61, i => 'a'));
      s.idx == -1 && PutsFinalWriteSize(s) == 0xFFFF_FFFF
  {
    PutsFinalWriteOverrun(seq(61, i => 'a'), [], 0, []);
  }

  /** The putbuff record: the file, the write index (-1: error), the count and the buffer. */
  class PutBuff {
    const fp: LfsFile
    const buf: array<char>
    var idx: int
    var nchr: int

    ghost predicate Valid()
      reads this
    {
      buf.Length == PUT_BUF_SIZE && -1 <= idx < FLUSH_AT
    }

    /** The putbuff seen as a PutState. */
    ghost function State(): PutState
      reads this, buf, fp
      requires Valid()
    {
      PutState(idx, nchr, if idx < 0 then [] else buf[..idx], fp.written, fp.room, fp.script)
    }

    constructor (file: LfsFile)
      ensures Valid() && fresh(buf) && fp == file && State() == PutInit(file.written, file.room, file.script)
    {
      fp := file;
      buf := new char[PUT_BUF_SIZE];
      idx, nchr := 0, 0;
    }

    /** putc_bfd. */
    method Putc(c: char)
      requires Valid()
      modifies this`idx, this`nchr, buf, fp`written, fp`room, fp`script
      ensures Valid() && State() == PutcStep(old(State()), c)
      decreases if c == '\n' then 1 else 0
    {
      if c == '\n' {
        Putc('\r');
      }
      ghost var s := State();
      var i := idx;
      if i < 0 {
        return;
      }
      buf[i] := c;
      i := i + 1;
      assert buf[..i] == s.pending + [c];
      if i >= buf.Length - 3 {
        var bw := fp.Write(buf, i);
        i := if bw == i then 0 else -1;
      }
      idx := i;
      nchr := nchr + 1;
    }
  }

  /** The loop of McuLFS_puts: putc_bfd for every character of str. */
  method PutChars(pb: PutBuff, str: seq<char>)
    requires pb.Valid() && '\0' !in str
    modifies pb`idx, pb`nchr, pb.buf, pb.fp`written, pb.fp`room, pb.fp`script
    ensures pb.Valid() && pb.State() == PutAll(old(pb.State()), str)
  {
    ghost var goal := PutAll(pb.State(), str);
    var i := 0;
    while i < |str|
      invariant i <= |str| && pb.Valid()
      invariant PutAll(pb.State(), str[i..]) == goal
    {
      assert str[i..][1..] == str[i + 1..];
      pb.Putc(str[i]);
      i := i + 1;
    }
  }

  /**
   * McuLFS_puts: puts every character of str through putc_bfd, then writes
   * out the rest of the buffer; returns the number of characters put, or -1.
   * str is the C string up to, and without, its NUL terminator.
   */
  method Puts(str: seq<char>, fp: LfsFile) returns (r: int)
    requires '\0' !in str
    modifies fp`written, fp`room, fp`script
    ensures PutsOutcome(r, fp.written, fp.room, fp.script) ==
              PutsFinish(PutAll(PutInit(old(fp.written), old(fp.room), old(fp.script)), str))
    ensures r >= 0 ==> r == |CrLf(str)| && fp.written == old(fp.written) + CrLf(str)
    ensures NoWriteFaults(old(fp.script)) ==> (r >= 0 <==> |CrLf(str)| <= old(fp.room))
    ensures |old(fp.written)| <= |fp.written| <= |old(fp.written)| + |CrLf(str)|
    ensures fp.written == old(fp.written) + CrLf(str)[..|fp.written| - |old(fp.written)|]
  {
    var pb := new PutBuff(fp);
    PutChars(pb, str);
    if pb.idx < 0 {
      r := -1;
    } else {
      var nw := fp.Write(pb.buf, pb.idx);
      r := if nw == pb.idx then pb.nchr else -1;
    }
    PutsOutcomeIff(str, old(fp.written), old(fp.room), old(fp.script));
  }

  // ---------------------------------------------------------------------------
  // McuLFS_readLine

  /** The length of the first line of input: the characters before its first line feed. */
  function LineLength(input: seq<char>): (n: nat)
    ensures n <= |input| && '\n' !in input[..n] && (n < |input| ==> input[n] == '\n')
  {
    if input == [] || input[0] == '\n' then 0
    else
      assert input[..1 + LineLength(input[1..])] == [input[0]] + input[1..][..LineLength(input[1..])];
      1 + LineLength(input[1..])
  }

  /** The number of characters reading the first line consumes: the line and its line feed. */
  function LineConsumed(input: seq<char>): (n: nat)
    ensures n <= |input|
  {
    if LineLength(input) < |input| then LineLength(input) + 1 else LineLength(input)
  }

  /**
   * The line buffer McuLFS_readLine leaves for `line` in a buffer that held
   * `before`: the i-th character is stored only while i + 1 < bufSize - 1,
   * lineBuf[0] was cleared first, and the terminator goes after the whole line.
   */
  function LineBufferAsWritten(before: seq<char>, line: seq<char>, bufSize: nat): (b: seq<char>)
    requires |line| < |before|
    ensures |b| == |before| && b[|line|] == '\0'
  {
    seq(|before|, i requires 0 <= i < |before| =>
      if i == |line| then '\0'
      else if i < |line| && i + 2 < bufSize then line[i]
      else if i == 0 then '\0'
      else before[i])
  }

  /** buf holds the first bufSize - 1 characters of line at most, NUL-terminated. */
  predicate HoldsLine(buf: seq<char>, line: seq<char>, bufSize: nat)
    requires 0 < bufSize <= |buf|
  {
    var m := if |line| < bufSize then |line| else bufSize - 1;
    buf[..m] == line[..m] && buf[m] == '\0'
  }

  /** McuLFS_readLine as written stores a line that leaves two spare places in the buffer. */
  lemma ReadLineAsWrittenHolds(before: seq<char>, line: seq<char>, bufSize: nat)
    requires |line| + 2 <= bufSize <= |before|
    ensures HoldsLine(LineBufferAsWritten(before, line, bufSize), line, bufSize)
  {
    var b := LineBufferAsWritten(before, line, bufSize);
    assert b[..|line|] == line;
  }

  /**
   * A line one shorter than the buffer keeps a stale byte: with room for
   * four characters, "abc" leaves "abz" and the terminator in a buffer that
   * held "zzzz".
   */
  lemma ReadLineStaleByte()
    ensures LineBufferAsWritten("zzzz", "abc", 4) == "abz\0"
    ensures !HoldsLine(LineBufferAsWritten("zzzz", "abc", 4), "abc", 4)
  {
    var b := LineBufferAsWritten("zzzz", "abc", 4);
    assert b[0] == 'a' && b[1] == 'b' && b[2] == 'z' && b[3] == '\0';
    assert b[..3][2] == 'z';
  }

  /**
   * McuLFS_readLine as written: reads up to and including the first line
   * feed and stores the line before it.  The source writes the terminator
   * after the whole line and counts in a uint8_t, so the line must be
   * shorter than the buffer and than 256 characters.
   */
  method ReadLine(file: LfsFile, lineBuf: array<char>, bufSize: nat) returns (res: ErrCode, nofReadChars: nat)
    requires bufSize <= lineBuf.Length
    requires LineLength(file.unread) < bufSize && LineLength(file.unread) < 256
    modifies lineBuf, file`unread
    ensures res == ErrOk
    ensures nofReadChars == LineLength(old(file.unread))
    ensures file.unread == old(file.unread)[LineConsumed(old(file.unread))..]
    ensures lineBuf[..] == LineBufferAsWritten(old(lineBuf[..]), old(file.unread)[..nofReadChars], bufSize)
  {
    ghost var input := file.unread;
    ghost var before := lineBuf[..];
    ghost var n := LineLength(input);
    lineBuf[0] := '\0';
    nofReadChars := 0;
    while true
      invariant nofReadChars <= n && file.unread == input[nofReadChars..]
      invariant forall i | 0 <= i < lineBuf.Length ::
        lineBuf[i] == if i < nofReadChars && i + 2 < bufSize then input[i] else if i == 0 then '\0' else before[i]
      decreases |file.unread|
    {
      var got, ch := file.ReadByte();
      if got == 0 || ch == '\n' {
        break;
      }
      nofReadChars := nofReadChars + 1;
      if nofReadChars + 1 < bufSize {
        lineBuf[nofReadChars - 1] := ch;
      }
    }
    lineBuf[nofReadChars] := '\0';
    res := ErrOk;
    assert nofReadChars == n;
  }

  /**
   * McuLFS_readLine with the evidently intended bounds: a character is
   * stored while it fits before the terminator, and the terminator goes
   * after the stored part, so any line is kept whole or cut to bufSize - 1
   * characters.
   */
  method ReadLineCorrected(file: LfsFile, lineBuf: array<char>, bufSize: nat) returns (res: ErrCode, nofReadChars: nat)
    requires 0 < bufSize <= lineBuf.Length
    requires LineLength(file.unread) < 256
    modifies lineBuf, file`unread
    ensures res == ErrOk
    ensures nofReadChars == LineLength(old(file.unread))
    ensures file.unread == old(file.unread)[LineConsumed(old(file.unread))..]
    ensures HoldsLine(lineBuf[..], old(file.unread)[..nofReadChars], bufSize)
    ensures forall i | bufSize <= i < lineBuf.Length :: lineBuf[i] == old(lineBuf[i])
  {
    ghost var input := file.unread;
    ghost var n := LineLength(input);
    nofReadChars := 0;
    while true
      invariant nofReadChars <= n && file.unread == input[nofReadChars..]
      invariant forall i | 0 <= i < nofReadChars && i < bufSize - 1 :: lineBuf[i] == input[i]
      invariant forall i | bufSize <= i < lineBuf.Length :: lineBuf[i] == old(lineBuf[i])
      decreases |file.unread|
    {
      var got, ch := file.ReadByte();
      if got == 0 || ch == '\n' {
        break;
      }
      nofReadChars := nofReadChars + 1;
      if nofReadChars < bufSize {
        lineBuf[nofReadChars - 1] := ch;
      }
    }
    var end := if nofReadChars < bufSize then nofReadChars else bufSize - 1;
    lineBuf[end] := '\0';
    res := ErrOk;
    assert nofReadChars == n;
    assert lineBuf[..][..end] == input[..nofReadChars][..end];
  }

  // ---------------------------------------------------------------------------
  // McuLFS_writeLine

  /** The size of McuLFS_writeLine's line buffer. */
  const LINE_BUF_SIZE: nat := 200

  /**
   * McuLFS_writeLine: writes the line followed by CR LF in one lfs_file_write;
   * a negative result closes the file and gives ERR_FAILED, anything else
   * gives ERR_OK.  The line and its CR LF and terminator must fit the buffer.
   */
  method WriteLine(file: LfsFile, line: seq<char>) returns (res: ErrCode)
    requires '\0' !in line && |line| + 3 <= LINE_BUF_SIZE
    modifies file`written, file`room, file`isOpen, file`script
    ensures var k := Kept(old(file.room), |line| + 2, NextOutcome(old(file.script)));
      && file.written == old(file.written) + (line + "\r\n")[..k]
      && file.room == old(file.room) - k
    ensures file.script == RestScript(old(file.script))
    ensures res == ErrOk || res == ErrFailed
    ensures res == ErrFailed <==> WriteCount(old(file.room), |line| + 2, NextOutcome(old(file.script))) < 0
    ensures res == ErrOk ==> file.written == old(file.written) + line + "\r\n"
    ensures NoWriteFaults(old(file.script)) ==> (res == ErrFailed <==> old(file.room) < |line| + 2)
    ensures res == ErrFailed ==> !file.isOpen
    ensures res == ErrOk ==> file.isOpen == old(file.isOpen)
  {
    var lineBuf := new char[LINE_BUF_SIZE];
    forall i | 0 <= i < |line| {
      lineBuf[i] := line[i];
    }
    lineBuf[|line|] := '\r';
    lineBuf[|line| + 1] := '\n';
    lineBuf[|line| + 2] := '\0';
    assert lineBuf[..|line| + 2] == line + "\r\n";
    var written := file.Write(lineBuf, |line| + 2);
    if written < 0 {
      file.Close();
      return ErrFailed;
    }
    return ErrOk;
  }
}

/** The bootloader messaging interface: chunked transfers over a command mailbox. */
module Bmi {
  import opened Words
  import opened TargetMemory

  const DONE := 1
  const READ_MEMORY := 2
  const WRITE_MEMORY := 3
  const LZ_STREAM_START := 13
  const LZ_DATA := 14

  const E2BIG := 7
  const EACCES := 13
  const EINVAL := 22

  /**
   * What reaches the target, latest event outermost: command frames, and the resets that reopen
   * the interface.
   */
  datatype Log = Start | Command(before: Log, frame: seq<byte>) | Reset(before: Log)

  /** later continues earlier. */
  predicate Extends(later: Log, earlier: Log)
  {
    later == earlier || (!later.Start? && Extends(later.before, earlier))
  }

  lemma {:induction false} ExtendsTransitive(a: Log, b: Log, c: Log)
    requires Extends(a, b) && Extends(b, c)
    ensures Extends(a, c)
  {
    if a != b {
      ExtendsTransitive(a.before, b, c);
    }
  }

  function CommandId(frame: seq<byte>): nat
  {
    if |frame| < 4 then 0 else FromLe32(frame[..4])
  }

  /** How the commands begin on the wire. */
  lemma CommandCodes()
    ensures Le32(DONE) == [1, 0, 0, 0] && Le32(READ_MEMORY) == [2, 0, 0, 0] && Le32(WRITE_MEMORY) == [3, 0, 0, 0]
    ensures Le32(LZ_STREAM_START) == [13, 0, 0, 0] && Le32(LZ_DATA) == [14, 0, 0, 0]
  {
  }

  // ----- the target's side of the protocol -----

  /** Memory after the target carries out one command frame. */
  function Execute(mem: Memory, frame: seq<byte>): Memory
  {
    if |frame| >= 12 && CommandId(frame) == WRITE_MEMORY && FromLe32(frame[8..12]) == |frame| - 12
    then Poke(mem, FromLe32(frame[4..8]), frame[12..])
    else mem
  }

  /** The bytes the target puts in the mailbox in answer to a frame. */
  function Answer(mem: Memory, frame: seq<byte>): seq<byte>
  {
    if |frame| >= 12 && CommandId(frame) == READ_MEMORY
    then Peek(mem, FromLe32(frame[4..8]), FromLe32(frame[8..12]))
    else []
  }

  /** A compressed stream: where it unpacks to and the bytes received for it. */
  datatype Stream = Stream(addr: nat, data: seq<byte>)

  function Extend(streams: seq<Stream>, data: seq<byte>): seq<Stream>
  {
    if streams == [] then [] else
    var last := streams[|streams| - 1];
    streams[..|streams| - 1] + [Stream(last.addr, last.data + data)]
  }

  /** The streams the target has seen, oldest first. */
  function Streams(log: Log): seq<Stream>
  {
    match log
    case Start => []
    case Reset(before) => Streams(before)
    case Command(before, f) =>
      if CommandId(f) == LZ_STREAM_START && |f| == 8 then Streams(before) + [Stream(FromLe32(f[4..8]), [])]
      else if CommandId(f) == LZ_DATA && |f| >= 8 && FromLe32(f[4..8]) == |f| - 8 then Extend(Streams(before), f[8..])
      else Streams(before)
  }

  /** DONE was sent and no reset has followed. */
  predicate Closed(log: Log)
  {
    log.Command? && (CommandId(log.frame) == DONE || Closed(log.before))
  }

  /**
   * Every command was sent while the interface was open, and fits the command buffer; compressed
   * data, header included, even fits the transfer size.
   */
  predicate Orderly(log: Log, maxDataSize: nat, maxCmdSize: nat)
  {
    match log
    case Start => true
    case Reset(before) => Orderly(before, maxDataSize, maxCmdSize)
    case Command(before, f) =>
      && Orderly(before, maxDataSize, maxCmdSize)
      && !Closed(before)
      && |f| <= (if CommandId(f) == LZ_DATA then maxDataSize else maxCmdSize)
  }

  /**
   * Every command ever sent fits the command buffer, and one that carries compressed data fits the
   * transfer size.
   */
  lemma {:induction false} EveryCommandFits(log: Log, sent: Log, maxDataSize: nat, maxCmdSize: nat)
    requires Orderly(log, maxDataSize, maxCmdSize) && Extends(log, sent) && sent.Command?
    ensures |sent.frame| <= maxDataSize || (|sent.frame| <= maxCmdSize && !([14, 0, 0, 0] <= sent.frame))
  {
    if log == sent {
      if [14, 0, 0, 0] <= sent.frame {
        assert sent.frame[..4] == Le32(LZ_DATA);
        Le32RoundTrip(LZ_DATA);
      }
    } else {
      EveryCommandFits(log.before, sent, maxDataSize, maxCmdSize);
    }
  }

  predicate ResetBetween(later: Log, earlier: Log)
  {
    later != earlier && !later.Start? && (later.Reset? || ResetBetween(later.before, earlier))
  }

  /** In an orderly log, a command after DONE is separated from it by a reset. */
  lemma {:induction false} NothingFollowsDone(log: Log, done: Log, maxDataSize: nat, maxCmdSize: nat)
    requires Orderly(log, maxDataSize, maxCmdSize) && log.Command?
    requires done.Command? && CommandId(done.frame) == DONE && Extends(log.before, done)
    ensures ResetBetween(log, done)
  {
    if !ResetBetween(log.before, done) {
      StaysClosed(log.before, done);
    }
    BeforeIsShorter(log, done);
  }

  lemma {:induction false} BeforeIsShorter(log: Log, earlier: Log)
    requires !log.Start? && Extends(log.before, earlier)
    ensures log != earlier
  {
    if log.before != earlier {
      if log == earlier {
        BeforeIsShorter(log.before, log.before.before);
        ExtendsTransitive(log.before.before, log, log.before);
        BeforeIsShorter(log.before, log.before);
      }
    }
  }

  lemma {:induction false} StaysClosed(log: Log, done: Log)
    requires Extends(log, done) && !ResetBetween(log, done)
    requires done.Command? && CommandId(done.frame) == DONE
    ensures Closed(log)
  {
    if log != done {
      StaysClosed(log.before, done);
    }
  }

  // ----- sizes -----

  function RoundUp4(n: nat): nat
  {
    (n + 3) / 4 * 4
  }

  /** Bytes of target memory a write of len bytes covers, sent in chunks of at most c bytes. */
  function Touched(len: nat, c: nat): (n: nat)
    requires c > 0
    ensures len <= n <= len + 3
    decreases len
  {
    if len < c then RoundUp4(len) else c + Touched(len - c, c)
  }

  /** With word-sized chunks only the tail is padded. */
  /** For chunks of any size: whole chunks, and the rest rounded up to a word. */
  lemma {:induction false} TouchedExact(q: nat, r: nat, c: nat)
    requires r < c
    ensures Touched(q * c + r, c) == q * c + (r + 3) / 4 * 4
    decreases q
  {
    if q > 0 {
      TouchedExact(q - 1, r, c);
      assert q * c == (q - 1) * c + c;
    }
  }

  lemma {:induction false} TouchedAligned(len: nat, c: nat)
    requires c > 0 && c % 4 == 0
    ensures Touched(len, c) == RoundUp4(len)
    decreases len
  {
    if len >= c {
      TouchedAligned(len - c, c);
      assert (len + 3) / 4 == (len - c + 3) / 4 + c / 4;
    }
  }

  /**
   * With whole-word chunks a complete write is one copy of the source: reading the range gives it
   * back, and no byte past its length rounded up to a word is touched.
   */
  lemma WriteIsOneCopy(mem: Memory, addr: nat, src: seq<byte>, beyond: seq<byte>, maxDataSize: nat)
    requires 16 <= maxDataSize && maxDataSize % 4 == 0 && |beyond| >= 3 && |src| < 0xffff_fffd
    ensures var n := Touched(|src|, maxDataSize - 12);
            var after := Poke(mem, addr, (src + beyond)[..n]);
            && n == RoundUp4(|src|) && Peek(after, addr, |src|) == src
            && forall k: nat | n <= k < 0x1_0000_0000 :: Cell(after, addr, k) == Cell(mem, addr, k)
  {
    TouchedAligned(|src|, maxDataSize - 12);
    var data := (src + beyond)[..RoundUp4(|src|)];
    PeekPoke(mem, addr, data, |src|);
    assert data[..|src|] == src;
    forall k: nat | |data| <= k < 0x1_0000_0000
      ensures Cell(Poke(mem, addr, data), addr, k) == Cell(mem, addr, k)
    {
      PokeAt(mem, addr, data, k);
    }
  }

  function ZeroPad4(data: seq<byte>): (s: seq<byte>)
    ensures |s| == RoundUp4(|data|) == (|data| + 3) / 4 * 4
    ensures data <= s && forall k | |data| <= k < |s| :: s[k] == 0
  {
    data + seq(RoundUp4(|data|) - |data|, _ => 0)
  }

  lemma ExecuteWrite(mem: Memory, addr: nat, data: seq<byte>)
    requires addr < 0x1_0000_0000 && |data| < 0x1_0000_0000
    ensures Execute(mem, Le32(WRITE_MEMORY) + Le32(addr) + Le32(|data|) + data) == Poke(mem, addr, data)
  {
    var f := Le32(WRITE_MEMORY) + Le32(addr) + Le32(|data|) + data;
    assert f[..4] == Le32(WRITE_MEMORY) && f[4..8] == Le32(addr) && f[8..12] == Le32(|data|) && f[12..] == data;
    Le32RoundTrip(WRITE_MEMORY);
    Le32RoundTrip(addr);
    Le32RoundTrip(|data|);
  }

  lemma AnswerRead(mem: Memory, addr: nat, n: nat)
    requires addr < 0x1_0000_0000 && n < 0x1_0000_0000
    ensures var f := Le32(READ_MEMORY) + Le32(addr) + Le32(n);
            Answer(mem, f) == Peek(mem, addr, n) && Execute(mem, f) == mem
  {
    var f := Le32(READ_MEMORY) + Le32(addr) + Le32(n);
    assert f[..4] == Le32(READ_MEMORY) && f[4..8] == Le32(addr) && f[8..12] == Le32(n);
    Le32RoundTrip(READ_MEMORY);
    Le32RoundTrip(addr);
    Le32RoundTrip(n);
  }

  lemma StreamsStart(log: Log, addr: nat)
    requires addr < 0x1_0000_0000
    ensures var f := Le32(LZ_STREAM_START) + Le32(addr);
            CommandId(f) == LZ_STREAM_START && Streams(Command(log, f)) == Streams(log) + [Stream(addr, [])]
  {
    var f := Le32(LZ_STREAM_START) + Le32(addr);
    assert f[..4] == Le32(LZ_STREAM_START) && f[4..8] == Le32(addr);
    Le32RoundTrip(LZ_STREAM_START);
    Le32RoundTrip(addr);
  }

  lemma StreamsData(log: Log, data: seq<byte>)
    requires |data| < 0x1_0000_0000
    ensures var f := Le32(LZ_DATA) + Le32(|data|) + data;
            CommandId(f) == LZ_DATA && Streams(Command(log, f)) == Extend(Streams(log), data)
  {
    var f := Le32(LZ_DATA) + Le32(|data|) + data;
    assert f[..4] == Le32(LZ_DATA) && f[4..8] == Le32(|data|) && f[8..] == data;
    Le32RoundTrip(LZ_DATA);
    Le32RoundTrip(|data|);
  }

  lemma ExtendConcat(streams: seq<Stream>, d: seq<byte>, e: seq<byte>)
    ensures Extend(Extend(streams, d), e) == Extend(streams, d + e)
  {
    if streams != [] {
      var last := streams[|streams| - 1];
      assert last.data + d + e == last.data + (d + e);
    }
  }

  lemma ExtendNothing(streams: seq<Stream>)
    ensures Extend(streams, []) == streams
  {
    if streams != [] {
      var last := streams[|streams| - 1];
      assert last.data + [] == last.data;
      assert streams == streams[..|streams| - 1] + [last];
    }
  }

  /** Zero-padding an image is padding its last, incomplete word. */
  lemma PadLastWord(image: seq<byte>)
    ensures var whole := |image| / 4 * 4;
            if |image| == whole then ZeroPad4(image) == image[..whole]
            else ZeroPad4(image) == image[..whole] + (image[whole..] + seq(4 - |image| % 4, _ => 0))
  {
    var whole := |image| / 4 * 4;
    assert image == image[..whole] + image[whole..];
  }

  /** A stream opened, filled and followed by the flushing stream. */
  lemma WholeStream(streams: seq<Stream>, addr: nat, data: seq<byte>)
    ensures Extend(streams + [Stream(addr, [])], data) + [Stream(0, [])]
         == streams + [Stream(addr, data), Stream(0, [])]
  {
    assert [] + data == data;
    assert (streams + [Stream(addr, [])])[..|streams|] == streams;
  }

  // ----- the host's side -----

  class Host {
    const maxDataSize: nat
    const maxCmdSize: nat
    const cmdBuf: array<byte>
    var doneSent: bool

    // The target behind the mailbox, and the outcomes of the coming mailbox transfers.
    var mem: Memory
    var reply: seq<byte>
    var link: seq<int>
    ghost var log: Log

    ghost predicate Valid()
      reads this
    {
      && cmdBuf.Length == maxCmdSize
      && 0 < maxDataSize < 0xfff4
      && Orderly(log, maxDataSize, maxCmdSize)
      && (Closed(log) ==> doneSent)
    }

    constructor (maxDataSize: nat, mem: Memory, link: seq<int>)
      requires 0 < maxDataSize < 0xfff4
      ensures Valid() && fresh(cmdBuf) && !doneSent && log == Start && this.mem == mem && this.link == link
      ensures this.maxDataSize == maxDataSize && maxCmdSize == maxDataSize + 12
    {
      this.maxDataSize := maxDataSize;
      this.maxCmdSize := maxDataSize + 12;
      this.cmdBuf := new byte[maxDataSize + 12](_ => 0);
      this.doneSent := false;
      this.mem := mem;
      this.reply := [];
      this.link := link;
      this.log := Start;
    }

    /** memcpy into the command buffer, extending the part already filled. */
    method Put(offset: nat, bytes: seq<byte>)
      requires offset + |bytes| <= cmdBuf.Length
      modifies cmdBuf
      ensures cmdBuf[..offset + |bytes|] == old(cmdBuf[..offset]) + bytes
    {
      forall i | 0 <= i < |bytes| {
        cmdBuf[offset + i] := bytes[i];
      }
    }

    method Clear(size: nat)
      requires size <= cmdBuf.Length
      modifies cmdBuf
    {
      forall i | 0 <= i < size {
        cmdBuf[i] := 0;
      }
    }

    /** The outcome of the next mailbox transfer: without faults it succeeds. */
    method LinkResult() returns (ret: int)
      modifies this`link
      ensures old(link) == [] ==> ret == 0 && link == []
    {
      if link == [] {
        ret := 0;
      } else {
        ret := link[0];
        link := link[1..];
      }
    }

    /** Hand one frame to the target; a failed transfer does not reach it. */
    method HifWrite(frame: seq<byte>) returns (ret: int)
      requires Valid() && !Closed(log) && (CommandId(frame) == DONE ==> doneSent)
      requires |frame| <= (if CommandId(frame) == LZ_DATA then maxDataSize else maxCmdSize)
      modifies this`mem, this`reply, this`link, this`log
      ensures Valid() && (old(link) == [] ==> ret == 0 && link == [])
      ensures ret == 0 ==> log == Command(old(log), frame) && mem == Execute(old(mem), frame)
      ensures ret == 0 ==> reply == Answer(old(mem), frame)
      ensures ret != 0 ==> log == old(log) && mem == old(mem)
    {
      ret := LinkResult();
      if ret == 0 {
        reply := Answer(mem, frame);
        mem := Execute(mem, frame);
        log := Command(log, frame);
      }
    }

    method HifRead(n: nat) returns (ret: int)
      requires n <= |reply| && n <= cmdBuf.Length
      modifies this`link, cmdBuf
      ensures old(link) == [] ==> ret == 0 && link == []
      ensures ret == 0 ==> cmdBuf[..n] == reply[..n]
    {
      ret := LinkResult();
      if ret == 0 {
        Put(0, reply[..n]);
      }
    }

    method BmiDone() returns (ret: int)
      requires Valid() && 4 <= maxCmdSize
      modifies this`doneSent, this`mem, this`reply, this`link, this`log
      ensures Valid() && doneSent && mem == old(mem)
      ensures old(doneSent) ==> ret == 0 && log == old(log)
      ensures !old(doneSent) ==> log == if ret == 0 then Command(old(log), [1, 0, 0, 0]) else old(log)
      ensures old(link) == [] ==> ret == 0
    {
      if doneSent {
        return 0;
      }
      doneSent := true;
      Le32RoundTrip(DONE);
      assert Le32(DONE)[..4] == Le32(DONE);
      ret := HifWrite(Le32(DONE));
    }

    method BmiReset()
      requires Valid()
      modifies this`doneSent, this`log
      ensures Valid() && !doneSent && log == Reset(old(log))
    {
      doneSent := false;
      log := Reset(log);
    }

    /** The interface is open and the command buffer holds a full transfer. */
    predicate CanRead()
      reads this`doneSent
    {
      !doneSent && maxDataSize + 12 <= maxCmdSize
    }

    predicate CanWrite()
      reads this`doneSent
    {
      CanRead() && maxDataSize <= 400
    }

    /** One pass of the read loop: ask for n bytes at a and wait for them in the command buffer. */
    method ReadChunk(a: nat, n: nat) returns (ret: int)
      requires Valid() && !doneSent && a < 0x1_0000_0000
      requires 12 <= maxCmdSize && n <= maxCmdSize && n < 0x1_0000_0000
      modifies this`mem, this`reply, this`link, this`log, cmdBuf
      ensures Valid() && mem == old(mem) && Extends(log, old(log))
      ensures log == old(log) || log == Command(old(log), Le32(READ_MEMORY) + Le32(a) + Le32(n))
      ensures old(link) == [] ==> ret == 0 && link == []
      ensures ret == 0 ==> cmdBuf[..n] == Peek(mem, a, n)
    {
      Put(0, Le32(READ_MEMORY));
      Put(4, Le32(a));
      Put(8, Le32(n));
      var frame := cmdBuf[..12];
      assert frame == Le32(READ_MEMORY) + Le32(a) + Le32(n);
      AnswerRead(mem, a, n);
      ret := HifWrite(frame);
      if ret == 0 {
        ret := HifRead(n);
      }
    }

    /** memcpy of the answer to its place in the caller's buffer. */
    method CopyOut(buf: array<byte>, at: nat, n: nat)
      requires buf != cmdBuf && at + n <= buf.Length && n <= cmdBuf.Length
      modifies buf
      ensures buf[..at + n] == old(buf[..at]) + cmdBuf[..n] && buf[at + n..] == old(buf[at + n..])
    {
      forall i | 0 <= i < n {
        buf[at + i] := cmdBuf[i];
      }
    }

    /** The read loop. */
    method ReadAll(addr: nat, buf: array<byte>, len: nat) returns (ret: int)
      requires Valid() && CanRead() && addr < 0x1_0000_0000
      requires buf != cmdBuf && len <= buf.Length && len < 0x1_0000_0000
      modifies this`mem, this`reply, this`link, this`log, cmdBuf, buf
      ensures Valid() && mem == old(mem) && Extends(log, old(log))
      ensures buf[len..] == old(buf[len..])
      ensures old(link) == [] ==> link == [] && ret == 0
      ensures ret == 0 ==> buf[..len] == Peek(mem, addr, len)
    {
      var lenRemain, a := len, addr;
      while lenRemain != 0
        invariant Valid() && mem == old(mem) && Extends(log, old(log))
        invariant 0 <= lenRemain <= len && a == Wrap32(addr + (len - lenRemain))
        invariant buf[..len - lenRemain] == Peek(mem, addr, len - lenRemain)
        invariant buf[len..] == old(buf[len..])
        invariant old(link) == [] ==> link == []
      {
        var rxLen := if lenRemain < maxDataSize then lenRemain else maxDataSize;
        var at := len - lenRemain;
        ghost var logBefore := log;
        ret := ReadChunk(a, rxLen);
        ExtendsTransitive(log, logBefore, old(log));
        if ret != 0 {
          return;
        }
        ghost var got := buf[..at];
        CopyOut(buf, at, rxLen);
        assert buf[..at + rxLen] == got + Peek(mem, a, rxLen);
        PeekWraps(mem, a, addr + at, rxLen);
        PeekConcat(mem, addr, at, rxLen);
        WrapAdd(a, addr + at, rxLen);
        lenRemain := lenRemain - rxLen;
        a := Wrap32(a + rxLen);
      }
      ret := 0;
    }

    /** Read len bytes of target memory into buf, one mailbox answer at a time. */
    method BmiRead(addr: nat, buf: array<byte>, len: nat) returns (ret: int)
      requires Valid() && addr < 0x1_0000_0000
      requires buf != cmdBuf && len <= buf.Length && len < 0x1_0000_0000
      modifies this`mem, this`reply, this`link, this`log, cmdBuf, buf
      ensures Valid() && mem == old(mem) && Extends(log, old(log))
      ensures buf[len..] == old(buf[len..])
      ensures doneSent ==> ret == -EACCES
      ensures !doneSent && maxDataSize + 12 > maxCmdSize ==> ret == -EINVAL
      ensures doneSent || maxDataSize + 12 > maxCmdSize ==> log == old(log) && buf[..] == old(buf[..])
      ensures old(link) == [] ==> link == []
      ensures old(link) == [] && !doneSent && maxDataSize + 12 <= maxCmdSize ==> ret == 0
      ensures ret == 0 ==> buf[..len] == Peek(mem, addr, len)
    {
      if doneSent {
        return -EACCES;
      }
      var size := (maxDataSize + 12) % 0x1_0000;
      if size > maxCmdSize {
        return -EINVAL;
      }
      Clear(size);
      ret := ReadAll(addr, buf, len);
    }

    /** One pass of the write loop: send the first n bytes of src; a single word is sent by value. */
    method WriteChunk(a: nat, src: seq<byte>, n: nat, word: bool) returns (ret: int)
      requires Valid() && !doneSent && a < 0x1_0000_0000
      requires n <= |src| && n < 0x1_0000_0000 && 12 + n <= maxCmdSize
      requires word ==> n <= 4 <= |src| && 16 <= maxCmdSize
      modifies this`mem, this`reply, this`link, this`log, cmdBuf
      ensures Valid() && Extends(log, old(log))
      ensures old(link) == [] ==> ret == 0 && link == []
      ensures log == if ret == 0 then Command(old(log), Le32(WRITE_MEMORY) + Le32(a) + Le32(n) + src[..n]) else old(log)
      ensures mem == if ret == 0 then Poke(old(mem), a, src[..n]) else old(mem)
    {
      Put(0, Le32(WRITE_MEMORY));
      Put(4, Le32(a));
      Put(8, Le32(n));
      var header := Le32(WRITE_MEMORY) + Le32(a) + Le32(n);
      assert cmdBuf[..12] == header;
      if word {
        FromLe32RoundTrip(src[..4]);
        Put(12, Le32(FromLe32(src[..4])));
        assert cmdBuf[..16] == header + src[..4];
      } else {
        Put(12, src[..n]);
      }
      var frame := cmdBuf[..12 + n];
      assert frame == header + src[..n];
      assert frame[..4] == Le32(WRITE_MEMORY);
      Le32RoundTrip(WRITE_MEMORY);
      ExecuteWrite(mem, a, src[..n]);
      ret := HifWrite(frame);
    }

    /** How much the next pass sends, padding the tail to a whole word, and what it counts as remaining. */
    method NextChunk(lenRemain: nat) returns (txLen: nat, padded: nat)
      requires 12 < maxDataSize && 0 < lenRemain
      ensures 0 < txLen <= padded && txLen <= RoundUp4(lenRemain) && txLen <= maxDataSize
      ensures txLen == padded || padded == lenRemain
      ensures Touched(lenRemain, maxDataSize - 12) == txLen + Touched(padded - txLen, maxDataSize - 12)
    {
      padded := lenRemain;
      if padded < maxDataSize - 12 {
        if padded % 4 != 0 {
          padded := padded + (4 - padded % 4);
        }
        txLen := padded;
      } else {
        txLen := maxDataSize - 12;
      }
    }

    /** One pass of the write loop on the rest of the image; mem0 is the memory it started from. */
    method WritePass(addr: nat, image: seq<byte>, len: nat, lenRemain: nat, a: nat, ghost sent: nat, ghost mem0: Memory)
      returns (ret: int, rest: nat, txLen: nat)
      requires Valid() && CanWrite() && 12 < maxDataSize && 0 < lenRemain <= len < 0x1_0000_0000
      requires len + 3 <= |image| && sent == len - lenRemain && a == Wrap32(addr + sent)
      requires mem == Poke(mem0, addr, image[..sent])
      modifies this`mem, this`reply, this`link, this`log, cmdBuf
      ensures Valid() && Extends(log, old(log))
      ensures old(link) == [] ==> link == [] && ret == 0
      ensures sent + txLen <= |image|
      ensures mem == Poke(mem0, addr, image[..if ret == 0 then sent + txLen else sent])
      ensures rest < lenRemain && (rest == 0 || rest == lenRemain - txLen)
      ensures Touched(lenRemain, maxDataSize - 12) == txLen + Touched(rest, maxDataSize - 12)
    {
      var padded;
      txLen, padded := NextChunk(lenRemain);
      rest := padded - txLen;
      var src := image[len - lenRemain..];
      PokeNext(mem0, addr, image, sent, txLen);
      ret := WriteChunk(a, src, txLen, len == 4);
    }

    /** The write loop over the source and the bytes that follow it. */
    method WriteAll(addr: nat, image: seq<byte>, len: nat) returns (ret: int, ghost sent: nat)
      requires Valid() && CanWrite() && addr < 0x1_0000_0000 && 12 < maxDataSize
      requires len + 3 <= |image| && len < 0x1_0000_0000
      modifies this`mem, this`reply, this`link, this`log, cmdBuf
      ensures Valid() && Extends(log, old(log))
      ensures sent <= Touched(len, maxDataSize - 12)
      ensures mem == Poke(old(mem), addr, image[..sent])
      ensures old(link) == [] ==> link == [] && ret == 0
      ensures ret == 0 ==> sent == Touched(len, maxDataSize - 12)
    {
      sent := 0;
      assert image[..0] == [];
      ret := 0;
      var lenRemain, a := len, addr;
      while lenRemain != 0
        invariant Valid() && Extends(log, old(log))
        invariant 0 <= lenRemain <= len && a == Wrap32(addr + sent)
        invariant lenRemain != 0 ==> sent == len - lenRemain
        invariant sent + Touched(lenRemain, maxDataSize - 12) == Touched(len, maxDataSize - 12)
        invariant mem == Poke(old(mem), addr, image[..sent])
        invariant (old(link) == [] ==> link == []) && ret == 0
        decreases lenRemain
      {
        ghost var logBefore := log;
        var rest, txLen;
        ret, rest, txLen := WritePass(addr, image, len, lenRemain, a, sent, old(mem));
        ExtendsTransitive(log, logBefore, old(log));
        if ret != 0 {
          return;
        }
        WrapAdd(a, addr + sent, txLen);
        sent := sent + txLen;
        a := Wrap32(a + txLen);
        lenRemain := rest;
      }
    }

    /**
     * Write the first len bytes of buf to target memory in padded chunks. The padding copies
     * bytes that follow the source; whatever they are, beyond stands for them. The ghost result
     * tells how much of the source, padding included, reached the target.
     */
    method BmiWrite(addr: nat, buf: array<byte>, len: nat, beyond: seq<byte>) returns (ret: int, ghost sent: nat)
      requires Valid() && addr < 0x1_0000_0000 && 12 < maxDataSize
      requires buf != cmdBuf && len <= buf.Length && len < 0x1_0000_0000 && |beyond| >= 3
      modifies this`mem, this`reply, this`link, this`log, cmdBuf
      ensures Valid() && Extends(log, old(log))
      ensures sent <= Touched(len, maxDataSize - 12)
      ensures mem == Poke(old(mem), addr, (buf[..len] + beyond)[..sent])
      ensures doneSent ==> ret == -EACCES
      ensures !doneSent && maxDataSize + 12 > maxCmdSize ==> ret == -EINVAL
      ensures !doneSent && maxDataSize + 12 <= maxCmdSize && maxDataSize > 400 ==> ret == -E2BIG
      ensures doneSent || maxDataSize + 12 > maxCmdSize || maxDataSize > 400 ==> log == old(log) && sent == 0
      ensures old(link) == [] ==> link == []
      ensures old(link) == [] && !doneSent && maxDataSize + 12 <= maxCmdSize && maxDataSize <= 400 ==> ret == 0
      ensures ret == 0 ==> sent == Touched(len, maxDataSize - 12)
    {
      if doneSent {
        return -EACCES, 0;
      }
      if maxDataSize + 12 > maxCmdSize {
        return -EINVAL, 0;
      }
      if maxDataSize > 400 {
        return -E2BIG, 0;
      }
      Clear(maxDataSize + 12);
      ret, sent := WriteAll(addr, buf[..len] + beyond, len);
    }

    /**
     * The one-frame commands (EXECUTE, SET_APP_START, READ and WRITE_SOC_REGISTER) up to the
     * point where the frame is sent.
     */
    method OneShot(cid: nat, operands: seq<byte>) returns (ret: int)
      requires Valid() && cid < 0x1_0000_0000 && cid != DONE && cid != LZ_DATA
      modifies this`mem, this`reply, this`link, this`log, cmdBuf
      ensures Valid()
      ensures doneSent ==> ret == -EACCES
      ensures !doneSent && 4 + |operands| > maxCmdSize ==> ret == -EINVAL
      ensures !doneSent && 4 + |operands| <= maxCmdSize && old(link) == [] ==> ret == 0
      ensures log == if ret == 0 then Command(old(log), Le32(cid) + operands) else old(log)
    {
      if doneSent {
        return -EACCES;
      }
      var size := 4 + |operands|;
      if size > maxCmdSize {
        return -EINVAL;
      }
      Clear(size);
      Put(0, Le32(cid));
      Put(4, operands);
      var frame := cmdBuf[..size];
      assert frame == Le32(cid) + operands && frame[..4] == Le32(cid);
      Le32RoundTrip(cid);
      ret := HifWrite(frame);
    }

    method LzStreamStart(addr: nat) returns (ret: int)
      requires Valid() && addr < 0x1_0000_0000
      modifies this`mem, this`reply, this`link, this`log, cmdBuf
      ensures Valid() && Extends(log, old(log))
      ensures doneSent ==> ret == -EACCES
      ensures !doneSent && 8 > maxCmdSize ==> ret == -EINVAL
      ensures old(link) == [] ==> link == [] && (!doneSent && 8 <= maxCmdSize ==> ret == 0)
      ensures log == if ret == 0 then Command(old(log), Le32(LZ_STREAM_START) + Le32(addr)) else old(log)
      ensures Streams(log) == Streams(old(log)) + if ret == 0 then [Stream(addr, [])] else []
    {
      if doneSent {
        return -EACCES;
      }
      if 8 > maxCmdSize {
        return -EINVAL;
      }
      Clear(8);
      Put(0, Le32(LZ_STREAM_START));
      Put(4, Le32(addr));
      var frame := cmdBuf[..8];
      assert frame == Le32(LZ_STREAM_START) + Le32(addr);
      StreamsStart(log, addr);
      ret := HifWrite(frame);
    }

    /** One pass of the compressed-data loop. */
    method LzChunk(data: seq<byte>) returns (ret: int)
      requires Valid() && !doneSent && 8 + |data| <= maxDataSize && maxDataSize <= maxCmdSize
      modifies this`mem, this`reply, this`link, this`log, cmdBuf
      ensures Valid() && Extends(log, old(log))
      ensures old(link) == [] ==> ret == 0 && link == []
      ensures log == if ret == 0 then Command(old(log), Le32(LZ_DATA) + Le32(|data|) + data) else old(log)
      ensures Streams(log) == if ret == 0 then Extend(Streams(old(log)), data) else Streams(old(log))
    {
      Put(0, Le32(LZ_DATA));
      Put(4, Le32(|data|));
      Put(8, data);
      var frame := cmdBuf[..8 + |data|];
      assert frame == Le32(LZ_DATA) + Le32(|data|) + data;
      StreamsData(log, data);
      ret := HifWrite(frame);
    }

    /** Send the next txLen bytes of buf, for an open stream that holds those before. */
    method LzPass(buf: array<byte>, at: nat, txLen: nat, ghost streams: seq<Stream>) returns (ret: int)
      requires Valid() && !doneSent && 8 + txLen <= maxDataSize && maxDataSize <= maxCmdSize
      requires buf != cmdBuf && at + txLen <= buf.Length && Streams(log) == Extend(streams, buf[..at])
      modifies this`mem, this`reply, this`link, this`log, cmdBuf
      ensures Valid() && Extends(log, old(log))
      ensures old(link) == [] ==> ret == 0 && link == []
      ensures Streams(log) == Extend(streams, buf[..if ret == 0 then at + txLen else at])
    {
      var piece := buf[at..at + txLen];
      ExtendConcat(streams, buf[..at], piece);
      assert buf[..at] + piece == buf[..at + txLen];
      ret := LzChunk(piece);
    }

    /** The compressed-data loop. */
    method LzAll(buf: array<byte>, len: nat) returns (ret: int, ghost sent: nat)
      requires Valid() && !doneSent && 8 < maxDataSize <= maxCmdSize && buf != cmdBuf && len <= buf.Length
      modifies this`mem, this`reply, this`link, this`log, cmdBuf
      ensures Valid() && Extends(log, old(log)) && sent <= len
      ensures Streams(log) == Extend(Streams(old(log)), buf[..sent])
      ensures old(link) == [] ==> link == [] && ret == 0
      ensures ret == 0 ==> sent == len
    {
      sent := 0;
      ExtendNothing(Streams(log));
      assert buf[..0] == [];
      var lenRemain := len;
      while lenRemain != 0
        invariant Valid() && Extends(log, old(log))
        invariant 0 <= lenRemain <= len && sent == len - lenRemain
        invariant Streams(log) == Extend(Streams(old(log)), buf[..sent])
        invariant old(link) == [] ==> link == []
      {
        var txLen := if lenRemain < maxDataSize - 8 then lenRemain else maxDataSize - 8;
        ghost var logBefore := log;
        ret := LzPass(buf, len - lenRemain, txLen, Streams(old(log)));
        ExtendsTransitive(log, logBefore, old(log));
        if ret != 0 {
          return;
        }
        sent := sent + txLen;
        lenRemain := lenRemain - txLen;
      }
      ret := 0;
    }

    /** Append the first len bytes of buf to the open stream. */
    method LzData(buf: array<byte>, len: nat) returns (ret: int, ghost sent: nat)
      requires Valid() && 8 < maxDataSize && buf != cmdBuf && len <= buf.Length
      modifies this`mem, this`reply, this`link, this`log, cmdBuf
      ensures Valid() && Extends(log, old(log)) && sent <= len
      ensures Streams(log) == Extend(Streams(old(log)), buf[..sent])
      ensures doneSent ==> ret == -EACCES && log == old(log)
      ensures !doneSent && maxDataSize + 8 > maxCmdSize ==> ret == -EINVAL && log == old(log)
      ensures old(link) == [] ==> link == [] && (!doneSent && maxDataSize + 8 <= maxCmdSize ==> ret == 0)
      ensures ret == 0 ==> sent == len
    {
      ExtendNothing(Streams(log));
      assert buf[..0] == [];
      if doneSent {
        return -EACCES, 0;
      }
      if (maxDataSize + 8) % 0x1_0000 > maxCmdSize {
        return -EINVAL, 0;
      }
      Clear(maxDataSize + 8);
      ret, sent := LzAll(buf, len);
    }

    /** The last bytes of buf in a word of their own, zeros after them. */
    method LastWord(buf: array<byte>, offset: nat, n: nat) returns (word: array<byte>)
      requires offset + n <= buf.Length && n <= 4
      ensures fresh(word) && word.Length == 4 && word[..4] == buf[offset..offset + n] + seq(4 - n, _ => 0)
    {
      word := new byte[4](_ => 0);
      forall i | 0 <= i < n {
        word[i] := buf[offset + i];
      }
    }

    /** The whole words of an image, then its zero-padded last word. */
    method LzImage(buf: array<byte>, len: nat) returns (ret: int)
      requires Valid() && 8 < maxDataSize && buf != cmdBuf && len <= buf.Length
      modifies this`mem, this`reply, this`link, this`log, cmdBuf
      ensures Valid() && Extends(log, old(log))
      ensures old(link) == [] ==> link == [] && (!doneSent && maxDataSize + 8 <= maxCmdSize ==> ret == 0)
      ensures ret == 0 ==> Streams(log) == Extend(Streams(old(log)), ZeroPad4(buf[..len]))
    {
      var lastWordOffset := len / 4 * 4;
      var unaligned := len % 4;
      ghost var image := buf[..len];
      PadLastWord(image);
      assert buf[..lastWordOffset] == image[..lastWordOffset];
      ghost var sent;
      ret, sent := LzData(buf, lastWordOffset);
      if ret != 0 {
        return;
      }
      if unaligned != 0 {
        assert buf[lastWordOffset..len] == image[lastWordOffset..];
        var lastWord := LastWord(buf, lastWordOffset, unaligned);
        ghost var word := lastWord[..4];
        ExtendConcat(Streams(old(log)), image[..lastWordOffset], word);
        assert ZeroPad4(image) == image[..lastWordOffset] + word;
        ghost var logBefore := log;
        ret, sent := LzData(lastWord, 4);
        ExtendsTransitive(log, logBefore, old(log));
      }
    }

    /**
     * Download a compressed image: one stream to addr holding exactly the image padded with zeros
     * to whole words, then the empty stream that makes the target flush its caches.
     */
    method FastDownload(addr: nat, buf: array<byte>, len: nat) returns (ret: int)
      requires Valid() && addr < 0x1_0000_0000 && 8 < maxDataSize
      requires buf != cmdBuf && len <= buf.Length
      modifies this`mem, this`reply, this`link, this`log, cmdBuf
      ensures Valid() && Extends(log, old(log))
      ensures doneSent ==> ret == -EACCES && Streams(log) == Streams(old(log))
      ensures old(link) == [] && !doneSent && maxDataSize + 8 <= maxCmdSize ==> ret == 0
      ensures ret == 0 ==>
        Streams(log) == Streams(old(log)) + [Stream(addr, ZeroPad4(buf[..len])), Stream(0, [])]
    {
      ghost var image := buf[..len];
      ret := LzStreamStart(addr);
      if ret != 0 {
        return;
      }
      ghost var log1 := log;
      ret := LzImage(buf, len);
      ExtendsTransitive(log, log1, old(log));
      if ret == 0 {
        WholeStream(Streams(old(log)), addr, ZeroPad4(image));
        ghost var log2 := log;
        ret := LzStreamStart(0);
        ExtendsTransitive(log, log2, old(log));
      }
    }
  }
}

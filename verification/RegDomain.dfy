/** Patching the regulatory domain of the board data without breaking its checksum. */
module RegDomain {
  import opened Words
  import opened Bits
  import opened TargetMemory
  import opened Bmi

  const TARGET_TYPE_AR6003 := 3
  const TARGET_TYPE_AR6004 := 5
  const TARGET_TYPE_AR6006 := 6

  /** Offset of the checksum word in the board data, the same on every target. */
  const SUM_OFFSET := 4

  predicate Supported(targetType: int)
  {
    targetType == TARGET_TYPE_AR6003 || targetType == TARGET_TYPE_AR6004 || targetType == TARGET_TYPE_AR6006
  }

  /** Where a target keeps the address of its board data. */
  function PointerAddr(targetType: int): nat
    requires Supported(targetType)
  {
    if targetType == TARGET_TYPE_AR6003 then 0x0054_0654
    else if targetType == TARGET_TYPE_AR6004 then 0x0040_0854
    else 0x0042_8854
  }

  function RdOffset(targetType: int): nat
    requires Supported(targetType)
  {
    if targetType == TARGET_TYPE_AR6003 then 12 else 20
  }

  // ----- board data as 16-bit words -----

  function Words16(s: seq<byte>): (w: seq<nat>)
    requires |s| % 2 == 0
    ensures |w| == |s| / 2
  {
    seq(|s| / 2, i requires 0 <= i < |s| / 2 => FromLe16(s[2 * i..2 * i + 2]))
  }

  function Checksum(words: seq<nat>): nat
  {
    if words == [] then 0 else Xor(words[0], Checksum(words[1..]))
  }

  /** The first n words of the board data at addr. */
  function Board(mem: Memory, addr: nat, n: nat): (w: seq<nat>)
    ensures |w| == n
  {
    Words16(Peek(mem, addr, 2 * n))
  }

  /** Replacing one word changes the checksum by the exclusive or of old and new. */
  lemma {:induction false} ChecksumUpdate(words: seq<nat>, i: nat, x: nat)
    requires i < |words|
    ensures Checksum(words[i := x]) == Xor(Checksum(words), Xor(words[i], x))
  {
    var rest := Checksum(words[1..]);
    if i == 0 {
      assert words[0 := x][1..] == words[1..];
      calc {
        Xor(Xor(words[0], rest), Xor(words[0], x));
        { XorComm(words[0], rest); XorAssoc(rest, words[0], Xor(words[0], x)); }
        Xor(rest, Xor(words[0], Xor(words[0], x)));
        { XorAssoc(words[0], words[0], x); XorSelf(words[0]); XorZero(x); }
        Xor(rest, x);
        { XorComm(rest, x); }
        Xor(x, rest);
      }
    } else {
      assert words[i := x][1..] == words[1..][i - 1 := x];
      ChecksumUpdate(words[1..], i - 1, x);
      XorAssoc(words[0], rest, Xor(words[i], x));
    }
  }

  /** A word and the checksum word patched together leave the checksum alone. */
  lemma ChecksumPatched(words: seq<nat>, i: nat, x: nat, s: nat)
    requires i < |words| && s < |words| && i != s
    ensures Checksum(words[i := x][s := Xor(Xor(words[s], words[i]), x)]) == Checksum(words)
  {
    var once := words[i := x];
    var delta := Xor(words[i], x);
    var sum := Xor(Xor(words[s], words[i]), x);
    ChecksumUpdate(words, i, x);
    ChecksumUpdate(once, s, sum);
    assert Xor(words[s], sum) == delta by {
      XorAssoc(words[s], words[i], x);
      XorAssoc(words[s], words[s], delta);
      XorSelf(words[s]);
      XorZero(delta);
    }
    XorAssoc(Checksum(words), delta, delta);
    XorSelf(delta);
    XorZero(Checksum(words));
  }

  /** The bytes of a range after four of them were overwritten. */
  lemma PatchedRange(mem: Memory, addr: nat, n: nat, offset: nat, data: seq<byte>)
    requires n <= 0x1_0000_0000 && |data| == 4 && offset + 4 <= n
    ensures var before := Peek(mem, addr, n);
            Peek(Poke(mem, addr + offset, data), addr, n) == before[..offset] + data + before[offset + 4..]
  {
    var before := Peek(mem, addr, n);
    var after := Peek(Poke(mem, addr + offset, data), addr, n);
    var expected := before[..offset] + data + before[offset + 4..];
    forall k | 0 <= k < n
      ensures after[k] == expected[k]
    {
      PatchedByte(mem, addr, offset, data, k);
    }
  }

  /** Replacing an aligned pair of words, the second by itself. */
  lemma WordsPatched(before: seq<byte>, i: nat, low: seq<byte>)
    requires |before| % 2 == 0 && 2 * i + 4 <= |before| && |low| == 2
    ensures var data := low + before[2 * i + 2..2 * i + 4];
            Words16(before[..2 * i] + data + before[2 * i + 4..]) == Words16(before)[i := FromLe16(low)]
  {
    var after := before[..2 * i] + (low + before[2 * i + 2..2 * i + 4]) + before[2 * i + 4..];
    assert after[2 * i..2 * i + 2] == low;
    forall j | 0 <= j < |before| / 2 && j != i
      ensures after[2 * j..2 * j + 2] == before[2 * j..2 * j + 2]
    {
    }
  }

  /**
   * Storing a 32-bit word whose upper half repeats what memory already holds changes just the
   * 16-bit word at the lower half.
   */
  lemma PatchWord(mem: Memory, addr: nat, n: nat, i: nat, high: nat, x: nat)
    requires n <= 0x8000_0000 && i + 1 < n && x < 0x1_0000 && high == Board(mem, addr, n)[i + 1]
    ensures Board(Poke(mem, addr + 2 * i, Le32(high * 0x1_0000 + x)), addr, n) == Board(mem, addr, n)[i := x]
  {
    var before := Peek(mem, addr, 2 * n);
    var kept := before[2 * (i + 1)..2 * (i + 1) + 2];
    FromLe16RoundTrip(kept);
    Le16RoundTrip(x);
    Le32Halves(high, x);
    PatchedRange(mem, addr, 2 * n, 2 * i, Le16(x) + kept);
    WordsPatched(before, i, Le16(x));
  }

  /** One byte of a range after part of it was overwritten. */
  lemma PatchedByte(mem: Memory, addr: nat, offset: nat, data: seq<byte>, k: nat)
    requires offset + |data| <= 0x1_0000_0000 && k < 0x1_0000_0000
    ensures At(Poke(mem, addr + offset, data), addr + k)
         == if offset <= k < offset + |data| then data[k - offset] else At(mem, addr + k)
  {
    if k >= offset {
      PokeAt(mem, addr + offset, data, k - offset);
      assert addr + offset + (k - offset) == addr + k;
    } else {
      var round := k + 0x1_0000_0000 - offset;
      PokeAt(mem, addr + offset, data, round);
      assert addr + offset + round == addr + k + 0x1_0000_0000;
      assert Wrap32(addr + k + 0x1_0000_0000) == Wrap32(addr + k);
    }
  }

  /** The address of the board data a target points to. */
  function BoardAddr(mem: Memory, targetType: int): nat
    requires Supported(targetType)
  {
    FromLe32(Peek(mem, PointerAddr(targetType), 4))
  }

  /** Read a 32-bit word of target memory. */
  method ReadWord(host: Host, addr: nat) returns (ret: int, word: nat)
    requires host.Valid() && addr < 0x1_0000_0000
    modifies host`mem, host`reply, host`link, host`log, host.cmdBuf
    ensures host.Valid() && host.mem == old(host.mem)
    ensures host.doneSent ==> ret != 0
    ensures old(host.link) == [] ==> host.link == [] && (host.CanRead() ==> ret == 0)
    ensures ret == 0 ==> word == FromLe32(Peek(host.mem, addr, 4))
  {
    var buf := new byte[4](_ => 0);
    ret := host.BmiRead(addr, buf, 4);
    word := FromLe32(buf[..4]);
  }

  /** Store a 32-bit word in target memory. */
  method WriteWord(host: Host, addr: nat, word: nat) returns (ret: int, ghost sent: nat)
    requires host.Valid() && addr < 0x1_0000_0000 && 16 <= host.maxDataSize && word < 0x1_0000_0000
    modifies host`mem, host`reply, host`link, host`log, host.cmdBuf
    ensures host.Valid()
    ensures old(host.link) == [] ==> host.link == [] && (host.CanWrite() ==> ret == 0)
    ensures sent <= 4 && host.mem == Poke(old(host.mem), addr, Le32(word)[..sent])
    ensures ret == 0 ==> sent == 4
  {
    var buf := new byte[4](_ => 0);
    var bytes := Le32(word);
    forall i | 0 <= i < 4 {
      buf[i] := bytes[i];
    }
    assert buf[..4] == bytes;
    ret, sent := host.BmiWrite(addr, buf, 4, [0, 0, 0]);
    assert Touched(4, host.maxDataSize - 12) == 4;
    assert (bytes + [0, 0, 0])[..sent] == bytes[..sent];
  }

  /** A word near the start of the board data is the same however much of it is looked at. */
  lemma BoardWord(mem: Memory, addr: nat, n: nat, j: nat)
    requires 16 <= n && j < 16
    ensures Board(mem, addr, n)[j] == Board(mem, addr, 16)[j]
  {
    assert Peek(mem, addr, 2 * n)[2 * j..2 * j + 2] == Peek(mem, addr, 32)[2 * j..2 * j + 2];
  }

  /** The checksum that makes up for word i becoming x. */
  function NewSum(words: seq<nat>, i: nat, x: nat): nat
    requires i < |words| && 2 < |words|
  {
    Xor(Xor(words[2], words[i]), x)
  }

  /** Memory after 32-bit words are stored at word i and at the checksum word. */
  function StoreBoth(mem: Memory, addr: nat, i: nat, high: nat, x: nat, ver: nat, sum: nat): Memory
  {
    Poke(Poke(mem, addr + 2 * i, Le32(high * 0x1_0000 + x)), addr + SUM_OFFSET, Le32(ver * 0x1_0000 + sum))
  }

  /** Memory after the two stores: word i, then the checksum word, each with its upper neighbour. */
  function TwoStores(mem: Memory, addr: nat, i: nat, x: nat): Memory
    requires i < 15
  {
    var w := Board(mem, addr, 16);
    StoreBoth(mem, addr, i, w[i + 1], x, w[3], NewSum(w, i, x))
  }

  lemma NewSumBound(words: seq<nat>, i: nat, x: nat)
    requires i < |words| && 2 < |words| && words[2] < 0x1_0000 && words[i] < 0x1_0000 && x < 0x1_0000
    ensures NewSum(words, i, x) < 0x1_0000
  {
    Pow2Of16();
    XorBound(words[2], words[i], 16);
    XorBound(Xor(words[2], words[i]), x, 16);
  }

  /** Two stores at different words, each keeping the word above. */
  lemma TwoPokes(mem: Memory, addr: nat, n: nat, i: nat, high: nat, x: nat, ver: nat, sum: nat)
    requires 4 <= n <= 0x8000_0000 && 3 < i < n - 1 && x < 0x1_0000 && sum < 0x1_0000
    requires high == Board(mem, addr, n)[i + 1] && ver == Board(mem, addr, n)[3]
    ensures Board(StoreBoth(mem, addr, i, high, x, ver, sum), addr, n) == Board(mem, addr, n)[i := x][2 := sum]
  {
    var mid := Poke(mem, addr + 2 * i, Le32(high * 0x1_0000 + x));
    PatchWord(mem, addr, n, i, high, x);
    PatchWord(mid, addr, n, 2, ver, sum);
  }

  lemma SameSum(words: seq<nat>, w: seq<nat>, i: nat, x: nat)
    requires i < |words| && 2 < |words| && i < |w| && 2 < |w| && words[2] == w[2] && words[i] == w[i]
    ensures NewSum(words, i, x) == NewSum(w, i, x)
  {
  }

  lemma TwoStoresBoard(mem: Memory, addr: nat, n: nat, i: nat, x: nat)
    requires 16 <= n <= 0x8000_0000 && 3 < i < 15 && x < 0x1_0000
    ensures var board := Board(mem, addr, n);
            Board(TwoStores(mem, addr, i, x), addr, n) == board[i := x][2 := NewSum(board, i, x)]
  {
    var w := Board(mem, addr, 16);
    BoardWord(mem, addr, n, 2);
    BoardWord(mem, addr, n, 3);
    BoardWord(mem, addr, n, i);
    BoardWord(mem, addr, n, i + 1);
    NewSumBound(w, i, x);
    SameSum(Board(mem, addr, n), w, i, x);
    TwoPokes(mem, addr, n, i, w[i + 1], x, w[3], NewSum(w, i, x));
  }

  /**
   * What a successful patch of board word i does, however much of the board data is summed: the
   * checksum holds, the word is the new domain, and no word but it and the checksum word changed.
   */
  ghost predicate Patched(before: Memory, after: Memory, addr: nat, i: nat, regDomain: nat)
    requires i < 16
  {
    forall n: nat {:trigger Board(after, addr, n)} | 16 <= n <= 0x8000_0000 ::
      && Checksum(Board(after, addr, n)) == Checksum(Board(before, addr, n))
      && Board(after, addr, n)[i] == regDomain
      && forall j | 0 <= j < n && j != i && j != 2 :: Board(after, addr, n)[j] == Board(before, addr, n)[j]
  }

  lemma TwoStoresPatch(mem: Memory, addr: nat, i: nat, regDomain: nat)
    requires 3 < i < 15 && regDomain < 0x1_0000
    ensures Patched(mem, TwoStores(mem, addr, i, regDomain), addr, i, regDomain)
  {
    var after := TwoStores(mem, addr, i, regDomain);
    forall n: nat {:trigger Board(after, addr, n)} | 16 <= n <= 0x8000_0000
      ensures Board(after, addr, n) == Board(mem, addr, n)[i := regDomain][2 := NewSum(Board(mem, addr, n), i, regDomain)]
      ensures Checksum(Board(after, addr, n)) == Checksum(Board(mem, addr, n))
    {
      TwoStoresBoard(mem, addr, n, i, regDomain);
      ChecksumPatched(Board(mem, addr, n), i, regDomain, 2);
    }
  }

  /** Nothing outside the two patched 32-bit words differs. */
  ghost predicate OnlyNear(before: Memory, after: Memory, addr: nat, rd: nat)
  {
    forall k: nat | k < 0x1_0000_0000 && !(rd <= k < rd + 4) && !(SUM_OFFSET <= k < SUM_OFFSET + 4) ::
      Cell(after, addr, k) == Cell(before, addr, k)
  }

  lemma PokeOnlyNear(before: Memory, mid: Memory, addr: nat, rd: nat, offset: nat, data: seq<byte>)
    requires OnlyNear(before, mid, addr, rd) && offset < 100 && |data| <= 4 && (offset == rd || offset == SUM_OFFSET)
    ensures OnlyNear(before, Poke(mid, addr + offset, data), addr, rd)
  {
    var after := Poke(mid, addr + offset, data);
    forall k: nat | k < 0x1_0000_0000 && !(rd <= k < rd + 4) && !(SUM_OFFSET <= k < SUM_OFFSET + 4)
      ensures Cell(after, addr, k) == Cell(before, addr, k)
    {
      PatchedByte(mid, addr, offset, data, k);
      assert Cell(mid, addr, k) == Cell(before, addr, k);
    }
  }

  /** The first 32 bytes of the board data as words. */
  method ReadBoard(host: Host, bdAddr: nat) returns (ret: int, w: seq<nat>)
    requires host.Valid() && bdAddr < 0x1_0000_0000
    modifies host`mem, host`reply, host`link, host`log, host.cmdBuf
    ensures host.Valid() && host.mem == old(host.mem)
    ensures old(host.link) == [] ==> host.link == [] && (host.CanRead() ==> ret == 0)
    ensures ret == 0 ==> w == Board(host.mem, bdAddr, 16)
  {
    var buf := new byte[32](_ => 0);
    ret := host.BmiRead(bdAddr, buf, 32);
    assert buf[..32] == buf[..];
    w := Words16(buf[..]);
  }

  /** A complete or interrupted store of one of the two words stays near them. */
  lemma StoreNear(before: Memory, mid: Memory, addr: nat, rd: nat, offset: nat, bytes: seq<byte>)
    requires OnlyNear(before, mid, addr, rd) && offset < 100 && (offset == rd || offset == SUM_OFFSET) && |bytes| <= 4
    ensures OnlyNear(before, Poke(mid, Wrap32(addr + offset), bytes), addr, rd)
    ensures Poke(mid, Wrap32(addr + offset), bytes) == Poke(mid, addr + offset, bytes)
  {
    PokeWraps(mid, Wrap32(addr + offset), addr + offset, bytes);
    PokeOnlyNear(before, mid, addr, rd, offset, bytes);
  }

  /** Store a 32-bit word at an offset of the board data; the upper half is given first. */
  method StoreWord(host: Host, bdAddr: nat, rd: nat, offset: nat, high: nat, low: nat, ghost before: Memory) returns (ret: int)
    requires host.Valid() && 16 <= host.maxDataSize && high < 0x1_0000 && low < 0x1_0000
    requires OnlyNear(before, host.mem, bdAddr, rd) && offset < 100 && (offset == rd || offset == SUM_OFFSET)
    modifies host`mem, host`reply, host`link, host`log, host.cmdBuf
    ensures host.Valid() && OnlyNear(before, host.mem, bdAddr, rd)
    ensures old(host.link) == [] ==> host.link == [] && (host.CanWrite() ==> ret == 0)
    ensures ret == 0 ==> host.mem == Poke(old(host.mem), bdAddr + offset, Le32(high * 0x1_0000 + low))
  {
    var word := high * 0x1_0000 + low;
    ghost var n;
    ret, n := WriteWord(host, Wrap32(bdAddr + offset), word);
    StoreNear(before, old(host.mem), bdAddr, rd, offset, Le32(word)[..n]);
    assert Le32(word)[..4] == Le32(word);
  }

  /** The two stores, the second only if the first succeeds. */
  method StorePair(host: Host, bdAddr: nat, i: nat, high: nat, x: nat, ver: nat, sum: nat) returns (ret: int)
    requires host.Valid() && 16 <= host.maxDataSize && i < 16
    requires high < 0x1_0000 && x < 0x1_0000 && ver < 0x1_0000 && sum < 0x1_0000
    modifies host`mem, host`reply, host`link, host`log, host.cmdBuf
    ensures host.Valid() && OnlyNear(old(host.mem), host.mem, bdAddr, 2 * i)
    ensures old(host.link) == [] && host.CanWrite() ==> ret == 0
    ensures ret == 0 ==> host.mem == StoreBoth(old(host.mem), bdAddr, i, high, x, ver, sum)
  {
    ghost var before := host.mem;
    ret := StoreWord(host, bdAddr, 2 * i, 2 * i, high, x, before);
    if ret == 0 {
      ret := StoreWord(host, bdAddr, 2 * i, SUM_OFFSET, ver, sum, before);
    }
  }

  /** The read, patch and repair of the board data at a known address; i is the domain word. */
  method PatchBoard(host: Host, bdAddr: nat, i: nat, regDomain: nat) returns (ret: int)
    requires host.Valid() && 16 <= host.maxDataSize && regDomain < 0x1_0000
    requires bdAddr < 0x1_0000_0000 && 3 < i < 15
    modifies host`mem, host`reply, host`link, host`log, host.cmdBuf
    ensures host.Valid()
    ensures old(host.link) == [] && host.CanWrite() ==> ret == 0
    ensures OnlyNear(old(host.mem), host.mem, bdAddr, 2 * i)
    ensures ret == 0 ==> host.mem == TwoStores(old(host.mem), bdAddr, i, regDomain)
  {
    var w;
    ret, w := ReadBoard(host, bdAddr);
    if ret != 0 {
      return;
    }
    var oSum, oVer, oRd, oRdNext := w[2], w[3], w[i], w[i + 1];
    NewSumBound(w, i, regDomain);
    ret := StorePair(host, bdAddr, i, oRdNext, regDomain, oVer, Xor(Xor(oSum, oRd), regDomain));
  }

  /**
   * Overwrite the regulatory domain in the board data and repair the checksum. Success patches
   * exactly the two words; any outcome leaves the rest of memory as it was.
   */
  method SetRd(host: Host, targetType: int, regDomain: nat) returns (ret: int)
    requires host.Valid() && 16 <= host.maxDataSize && regDomain < 0x1_0000
    modifies host`mem, host`reply, host`link, host`log, host.cmdBuf
    ensures host.Valid()
    ensures !Supported(targetType) ==> ret == -EINVAL && host.mem == old(host.mem)
    ensures targetType !in {3, 5, 6} ==> ret == -EINVAL && host.log == old(host.log)
    ensures (targetType in {3, 5, 6} && old(host.link) == [] && !host.doneSent
             && host.maxDataSize + 12 <= host.maxCmdSize && host.maxDataSize <= 400) ==> ret == 0
    ensures ret == 0 ==>
      var pointer := if targetType == 3 then 0x0054_0654 else if targetType == 5 then 0x0040_0854 else 0x0042_8854;
      Patched(old(host.mem), host.mem, FromLe32(Peek(old(host.mem), pointer, 4)), if targetType == 3 then 6 else 10, regDomain)
    ensures Supported(targetType) ==>
      OnlyNear(old(host.mem), host.mem, BoardAddr(old(host.mem), targetType), RdOffset(targetType))
    ensures Supported(targetType) && ret == 0 ==>
      Patched(old(host.mem), host.mem, BoardAddr(old(host.mem), targetType), RdOffset(targetType) / 2, regDomain)
  {
    if !Supported(targetType) {
      return -EINVAL;
    }
    ghost var bd := BoardAddr(host.mem, targetType);
    assert OnlyNear(host.mem, host.mem, bd, RdOffset(targetType));
    var bdAddr;
    ret, bdAddr := ReadWord(host, PointerAddr(targetType));
    if ret != 0 {
      return;
    }
    assert bdAddr == bd;
    ret := PatchBoard(host, bdAddr, RdOffset(targetType) / 2, regDomain);
    TwoStoresPatch(old(host.mem), bd, RdOffset(targetType) / 2, regDomain);
  }
}

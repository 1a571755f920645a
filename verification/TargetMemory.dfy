/** The target's memory as the bootloader sees it: a byte store addressed by 32-bit words. */
module TargetMemory {
  import opened Words

  type Memory = map<int, byte>

  function At(mem: Memory, addr: int): byte
  {
    if Wrap32(addr) in mem then mem[Wrap32(addr)] else 0
  }

  /** The byte k past addr. */
  function Cell(mem: Memory, addr: int, k: nat): byte
  {
    At(mem, addr + k)
  }

  /** One plain memory copy of data to addr; addresses wrap at 2^32. */
  function Poke(mem: Memory, addr: int, data: seq<byte>): Memory
    decreases |data|
  {
    if data == [] then mem else Poke(mem[Wrap32(addr) := data[0]], addr + 1, data[1..])
  }

  /** The n bytes stored from addr on. */
  function Peek(mem: Memory, addr: int, n: nat): (s: seq<byte>)
    ensures |s| == n
  {
    seq<byte>(n, i requires 0 <= i < n => At(mem, addr + i))
  }

  /** Only the address modulo 2^32 matters. */
  lemma {:induction false} PokeWraps(mem: Memory, a: int, b: int, data: seq<byte>)
    requires Wrap32(a) == Wrap32(b)
    ensures Poke(mem, a, data) == Poke(mem, b, data)
    decreases |data|
  {
    if data != [] {
      assert Wrap32(a + 1) == Wrap32(b + 1);
      PokeWraps(mem[Wrap32(a) := data[0]], a + 1, b + 1, data[1..]);
    }
  }

  /** Copying in two pieces is copying at once. */
  lemma {:induction false} PokeConcat(mem: Memory, addr: int, d: seq<byte>, e: seq<byte>)
    ensures Poke(mem, addr, d + e) == Poke(Poke(mem, addr, d), addr + |d|, e)
    decreases |d|
  {
    if d == [] {
      assert d + e == e;
    } else {
      assert (d + e)[1..] == d[1..] + e;
      PokeConcat(mem[Wrap32(addr) := d[0]], addr + 1, d[1..], e);
    }
  }

  /** A copy continued at the wrapped address of its next byte. */
  lemma PokeNext(mem: Memory, addr: int, image: seq<byte>, sent: nat, n: nat)
    requires sent + n <= |image|
    ensures Poke(Poke(mem, addr, image[..sent]), Wrap32(addr + sent), image[sent..][..n])
         == Poke(mem, addr, image[..sent + n])
  {
    var piece := image[sent..][..n];
    PokeWraps(Poke(mem, addr, image[..sent]), Wrap32(addr + sent), addr + sent, piece);
    PokeConcat(mem, addr, image[..sent], piece);
    assert image[..sent] + piece == image[..sent + n];
  }

  /** What every byte of the address space holds after a copy. */
  lemma {:induction false} PokeAt(mem: Memory, addr: int, data: seq<byte>, k: nat)
    requires |data| <= 0x1_0000_0000 && k < 0x1_0000_0000
    ensures At(Poke(mem, addr, data), addr + k) == if k < |data| then data[k] else At(mem, addr + k)
    decreases |data|
  {
    if data != [] {
      var mem' := mem[Wrap32(addr) := data[0]];
      if k > 0 {
        PokeAt(mem', addr + 1, data[1..], k - 1);
        assert addr + 1 + (k - 1) == addr + k;
        assert Wrap32(addr + k) != Wrap32(addr);
      } else {
        PokeAt(mem', addr + 1, data[1..], 0xffff_ffff);
        assert Wrap32(addr + 1 + 0xffff_ffff) == Wrap32(addr);
      }
    }
  }

  /** Reading a copied range back gives the source. */
  lemma PeekPoke(mem: Memory, addr: int, data: seq<byte>, n: nat)
    requires n <= |data| <= 0x1_0000_0000
    ensures Peek(Poke(mem, addr, data), addr, n) == data[..n]
  {
    forall i | 0 <= i < n
      ensures Peek(Poke(mem, addr, data), addr, n)[i] == data[i]
    {
      PokeAt(mem, addr, data, i);
    }
  }

  /** Two adjacent reads join. */
  lemma PeekConcat(mem: Memory, addr: int, m: nat, n: nat)
    ensures Peek(mem, addr, m + n) == Peek(mem, addr, m) + Peek(mem, addr + m, n)
  {
    var left, right := Peek(mem, addr, m), Peek(mem, addr + m, n);
    forall i | 0 <= i < n
      ensures Peek(mem, addr, m + n)[m + i] == right[i]
    {
      assert addr + m + i == addr + (m + i);
    }
    forall i | 0 <= i < m + n
      ensures Peek(mem, addr, m + n)[i] == (left + right)[i]
    {
      if i >= m {
        assert Peek(mem, addr, m + n)[m + (i - m)] == right[i - m];
      }
    }
  }

  lemma PeekWraps(mem: Memory, a: int, b: int, n: nat)
    requires Wrap32(a) == Wrap32(b)
    ensures Peek(mem, a, n) == Peek(mem, b, n)
  {
    forall i | 0 <= i < n
      ensures Peek(mem, a, n)[i] == Peek(mem, b, n)[i]
    {
      WrapAdd(a, b, i);
      assert Peek(mem, a, n)[i] == At(mem, a + i) && Peek(mem, b, n)[i] == At(mem, b + i);
    }
  }
}

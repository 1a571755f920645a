/**
 * Direct audio: rings of fixed-size slots shared with the audio processor, each slot carrying a
 * ready flag. The driver produces into the receive ring and drains the send buffer.
 */
module AudioRing {
  import opened Words

  const DESCRIPTOR_SIZE := 9
  const ETH_HLEN := 14
  const TSF_IE := 0x1234_fedc

  /** What a slot holds for its reader: the announced payload size and the bytes from the link header on. */
  datatype Content = Content(payloadSize: nat, area: seq<byte>)

  datatype Slot = Slot(ready: bool, content: Content)

  /** Where the producer stands inside one call; the reader may run between any two phases. */
  datatype Phase = Idle | Checked(frame: seq<byte>) | Filled(content: Content) | Published

  // ----- the frame as it is stored -----

  /** A trailer marking a timestamp sits in the last eight bytes. */
  predicate HasTsf(frame: seq<byte>)
    requires |frame| >= ETH_HLEN
  {
    FromLe32(frame[|frame| - 8..|frame| - 4]) == TSF_IE
  }

  /** A frame with its link header; a marked one really has the trailer. */
  predicate WellFormed(frame: seq<byte>)
  {
    |frame| >= ETH_HLEN && (HasTsf(frame) ==> |frame| >= ETH_HLEN + 8)
  }

  function Trimmed(frame: seq<byte>): seq<byte>
    requires WellFormed(frame)
  {
    if HasTsf(frame) then frame[..|frame| - 8] else frame
  }

  function Timestamp(frame: seq<byte>): nat
    requires WellFormed(frame)
  {
    if HasTsf(frame) then FromLe32(frame[|frame| - 4..]) else 0
  }

  /** A slot area after a frame is copied in and the timestamp stored over bytes 4..8 of the payload. */
  function Compose(area: seq<byte>, frame: seq<byte>): (c: Content)
    requires WellFormed(frame) && |area| >= ETH_HLEN + 8
    ensures |c.area| == |area| && c.payloadSize == |Trimmed(frame)| - ETH_HLEN
  {
    var data := Trimmed(frame);
    var kept := if |data| > |area| then data[..|area|] else data;
    var copied := kept + area[|kept|..];
    var at := ETH_HLEN + 4;
    Content(|data| - ETH_HLEN, copied[..at] + Le32(Timestamp(frame)) + copied[at + 4..])
  }

  /**
   * The reader finds every byte of the frame, trailer excluded, that the slot has room for, except
   * the four that hold the timestamp.
   */
  lemma ComposeCarries(area: seq<byte>, frame: seq<byte>, k: nat)
    requires WellFormed(frame) && |area| >= ETH_HLEN + 8 && k < |area|
    ensures var c := Compose(area, frame);
            c.area[k] == if ETH_HLEN + 4 <= k < ETH_HLEN + 8 then Le32(Timestamp(frame))[k - ETH_HLEN - 4]
                         else if k < |Trimmed(frame)| then frame[k] else area[k]
  {
    var data := Trimmed(frame);
    var kept := if |data| > |area| then data[..|area|] else data;
    var copied := kept + area[|kept|..];
    assert copied[k] == if k < |kept| then data[k] else area[k];
    assert k < |kept| ==> data[k] == frame[k];
  }

  /** The last eight bytes of a marked frame. */
  function Trailer(timestamp: nat): seq<byte>
  {
    [0xdc, 0xfe, 0x34, 0x12] + Le32(timestamp)
  }

  /** What the reader finds at byte k of a slot that held area: header and payload as far as the slot has room, and the timestamp. */
  function Expected(area: seq<byte>, data: seq<byte>, timestamp: nat, k: nat): byte
    requires k < |area|
  {
    if 18 <= k < 22 then Le32(timestamp)[k - 18] else if k < |data| then data[k] else area[k]
  }

  lemma TrailerIsMark(data: seq<byte>, timestamp: nat)
    requires |data| >= 14 && timestamp < 0x1_0000_0000
    ensures var frame := data + Trailer(timestamp);
            && HasTsf(frame) && WellFormed(frame) && frame[..|frame| - 8] == data
            && FromLe32(frame[|frame| - 4..]) == timestamp
  {
    var frame := data + Trailer(timestamp);
    assert frame[|data|..|data| + 4] == [0xdc, 0xfe, 0x34, 0x12];
    assert frame[|data| + 4..] == Le32(timestamp);
    Le32RoundTrip(timestamp);
  }

  /**
   * A frame of header and payload with a trailer: the payload size without the trailer is announced,
   * and the slot holds header and payload with the trailer's timestamp over payload bytes 4 to 8.
   */
  lemma MarkedFrame(area: seq<byte>, header: seq<byte>, payload: seq<byte>, timestamp: nat, k: nat)
    requires |header| == 14 && timestamp < 0x1_0000_0000 && |area| >= 22 && k < |area|
    ensures WellFormed(header + payload + Trailer(timestamp))
    ensures var c := Compose(area, header + payload + Trailer(timestamp));
            c.payloadSize == |payload| && |c.area| == |area| && c.area[k] == Expected(area, header + payload, timestamp, k)
  {
    var data := header + payload;
    TrailerIsMark(data, timestamp);
    ComposeCarries(area, data + Trailer(timestamp), k);
  }

  /** A frame without the mark: all of it is payload, and the timestamp is zero. */
  lemma UnmarkedFrame(area: seq<byte>, header: seq<byte>, payload: seq<byte>, k: nat)
    requires |header| == 14 && |area| >= 22 && k < |area|
    requires var frame := header + payload; frame[|frame| - 8..|frame| - 4] != [0xdc, 0xfe, 0x34, 0x12]
    ensures WellFormed(header + payload)
    ensures var c := Compose(area, header + payload);
            c.payloadSize == |payload| && |c.area| == |area| && c.area[k] == Expected(area, header + payload, 0, k)
  {
    var frame := header + payload;
    var mark := frame[|frame| - 8..|frame| - 4];
    FromLe32RoundTrip(mark);
    assert Le32(TSF_IE) == [0xdc, 0xfe, 0x34, 0x12];
    ComposeCarries(area, frame, k);
  }

  // ----- geometry -----

  /** Slots are visited at multiples of the unit length below the pool size. */
  predicate Geometry(poolSize: nat, unitLen: nat, n: nat)
  {
    0 < unitLen && 0 < n && (n - 1) * unitLen < poolSize <= n * unitLen
  }

  lemma MulMonotone(a: nat, b: nat, u: nat)
    ensures a <= b ==> a * u <= b * u
  {
  }

  /** The pointer test at the end of the pool is the index test. */
  lemma WrapTest(poolSize: nat, unitLen: nat, n: nat, w: nat)
    requires Geometry(poolSize, unitLen, n) && w < n
    ensures w * unitLen + unitLen >= poolSize <==> w + 1 == n
    ensures w * unitLen + unitLen == (w + 1) * unitLen
  {
    if w + 1 < n {
      MulMonotone(w + 1, n - 1, unitLen);
    }
  }

  /** The last slot, and so every slot, lies inside the pool exactly when the unit length divides its size. */
  lemma SlotsInPool(poolSize: nat, unitLen: nat, n: nat)
    requires Geometry(poolSize, unitLen, n)
    ensures n * unitLen <= poolSize <==> poolSize % unitLen == 0
  {
    if poolSize % unitLen == 0 {
      MulMonotone(poolSize / unitLen + 1, n, unitLen);
      if poolSize / unitLen < n {
        MulMonotone(poolSize / unitLen, n - 1, unitLen);
      }
    } else if n * unitLen <= poolSize {
      PointerDivides(n, unitLen);
    }
  }

  /** Where a store of a payload of len bytes begins and ends in its slot; the link header goes before the payload. */
  function StoreBegin(headroom: nat): int
  {
    DESCRIPTOR_SIZE + headroom - ETH_HLEN
  }

  function StoreEnd(unitLen: nat, headroom: nat, len: nat): int
    requires unitLen >= DESCRIPTOR_SIZE + headroom
  {
    var kept := if len > unitLen - DESCRIPTOR_SIZE - headroom then unitLen - DESCRIPTOR_SIZE - headroom else len;
    StoreBegin(headroom) + kept + ETH_HLEN
  }

  /** Whatever its length, a frame is stored inside its slot and behind the descriptor exactly when the headroom has room for the link header. */
  lemma StoreStaysBehindDescriptor(unitLen: nat, headroom: nat, len: nat)
    requires unitLen >= DESCRIPTOR_SIZE + headroom
    ensures DESCRIPTOR_SIZE <= StoreBegin(headroom) && StoreEnd(unitLen, headroom, len) <= unitLen <==> ETH_HLEN <= headroom
  {
  }

  /** The receive ring, the driver's write pointer into it and the in-order reader. */
  class RxRing {
    const poolSize: nat
    const unitLen: nat
    const headroom: nat
    const n: nat
    const slots: array<Slot>
    var current: nat            // byte offset of the write pointer
    var phase: Phase
    var readIndex: nat          // the reader's next slot

    ghost var writeIndex: nat
    ghost var accepted: seq<Content>
    ghost var delivered: seq<Content>

    function Room(): int
    {
      unitLen - DESCRIPTOR_SIZE - headroom
    }

    function Next(i: nat): nat
    {
      if i + 1 == n then 0 else i + 1
    }

    /** How far slot i is ahead of the reader. */
    function Ahead(i: nat): int
      reads this`readIndex
    {
      if i >= readIndex then i - readIndex else i - readIndex + n
    }

    ghost function Unread(): int
      reads this`accepted, this`delivered
    {
      |accepted| - |delivered|
    }

    /**
     * The unread slots are one cyclic window from the reader to the write pointer; they hold the
     * accepted frames that were not delivered, in order, and what was delivered is a prefix of
     * what was accepted.
     */
    ghost predicate Valid()
      reads this, slots
    {
      && Geometry(poolSize, unitLen, n) && Room() >= 8 && headroom >= ETH_HLEN && slots.Length == n
      && readIndex < n && writeIndex < n && current == writeIndex * unitLen
      && delivered <= accepted && Unread() <= n
      && (forall i | 0 <= i < n :: |slots[i].content.area| == Room() + ETH_HLEN)
      && (forall i | 0 <= i < n :: slots[i].ready <==> Ahead(i) < Unread())
      && (forall i | 0 <= i < n && slots[i].ready :: slots[i].content == accepted[|delivered| + Ahead(i)])
      && (if Unread() == n then readIndex else (if readIndex + Unread() < n then readIndex + Unread() else readIndex + Unread() - n))
         == (if phase.Published? then Next(writeIndex) else writeIndex)
      && (phase.Checked? ==> Unread() < n && WellFormed(phase.frame))
      && (phase.Filled? ==> Unread() < n && slots[writeIndex].content == phase.content)
    }

    constructor (poolSize: nat, unitLen: nat, headroom: nat, n: nat)
      requires Geometry(poolSize, unitLen, n) && unitLen >= DESCRIPTOR_SIZE + headroom + 8
      requires ETH_HLEN <= headroom   // otherwise stores reach into the descriptor: see StoreStaysBehindDescriptor
      ensures Valid() && fresh(slots) && phase.Idle? && accepted == delivered == []
    {
      this.poolSize, this.unitLen, this.headroom, this.n := poolSize, unitLen, headroom, n;
      current, readIndex, phase := 0, 0, Idle;
      writeIndex, accepted, delivered := 0, [], [];
      var area := seq<byte>(unitLen - DESCRIPTOR_SIZE - headroom + ETH_HLEN, _ => 0);
      slots := new Slot[n](_ => Slot(false, Content(0, area)));
    }

    /** The first test of a call: a slot not yet read means the ring is full and the frame is dropped. */
    method RxCheck(frame: seq<byte>) returns (dropped: bool)
      requires Valid() && phase.Idle? && WellFormed(frame)
      modifies this`phase
      ensures Valid() && dropped == (Unread() == n)
      ensures phase == if dropped then Idle else Checked(frame)
    {
      WrapTest(poolSize, unitLen, n, writeIndex);
      dropped := SlotAtPointer().ready;
      if !dropped {
        phase := Checked(frame);
      }
    }

    /** The slot the write pointer designates. */
    function SlotAtPointer(): (s: Slot)
      requires Valid()
      reads this, slots
      ensures s == slots[writeIndex]
    {
      PointerDivides(writeIndex, unitLen);
      slots[current / unitLen]
    }

    /** Copy the frame and its timestamp into the slot. */
    method RxFill()
      requires Valid() && phase.Checked?
      modifies this`phase, slots
      ensures Valid() && phase.Filled?
      ensures phase.content == Compose(old(slots[writeIndex].content.area), old(phase.frame))
    {
      PointerDivides(writeIndex, unitLen);
      var i := current / unitLen;
      var content := Compose(slots[i].content.area, phase.frame);
      slots[i] := slots[i].(content := content);
      phase := Filled(content);
    }

    /** Raise the ready flag: from here on the reader may take the slot. */
    method RxPublish()
      requires Valid() && phase.Filled?
      modifies this`phase, this`accepted, slots
      ensures Valid() && phase.Published? && accepted == old(accepted) + [old(phase.content)]
    {
      PointerDivides(writeIndex, unitLen);
      var i := current / unitLen;
      slots[i] := slots[i].(ready := true);
      accepted := accepted + [phase.content];
      phase := Published;
    }

    /** Move the write pointer on, wrapping at the end of the pool. */
    method RxAdvance()
      requires Valid() && phase.Published?
      modifies this`phase, this`current, this`writeIndex
      ensures Valid() && phase.Idle?
    {
      WrapTest(poolSize, unitLen, n, writeIndex);
      if current + unitLen >= poolSize {
        current := 0;
      } else {
        current := current + unitLen;
      }
      writeIndex := Next(writeIndex);
      phase := Idle;
    }

    /** The reader's step, possible at any moment: take the next slot if it is ready. */
    method Consume() returns (taken: bool)
      requires Valid()
      modifies this`readIndex, this`delivered, slots
      ensures Valid() && taken == (old(Unread()) > 0)
      ensures delivered == if taken then old(accepted)[..|old(delivered)| + 1] else old(delivered)
    {
      taken := slots[readIndex].ready;
      if taken {
        delivered := delivered + [slots[readIndex].content];
        slots[readIndex] := slots[readIndex].(ready := false);
        readIndex := Next(readIndex);
      }
    }

    /** A whole call; the callback between publishing and advancing lets the reader take some slots. */
    method SdaRxFun(frame: seq<byte>, taking: nat) returns (dropped: bool)
      requires Valid() && phase.Idle? && WellFormed(frame)
      modifies this, slots
      ensures Valid() && phase.Idle? && dropped == (old(Unread()) == n)
      ensures dropped ==> accepted == old(accepted) && delivered == old(delivered) && slots[..] == old(slots[..])
      ensures !dropped ==> accepted == old(accepted) + [Compose(old(slots[writeIndex].content.area), frame)]
    {
      dropped := RxCheck(frame);
      if dropped {
        return;
      }
      RxFill();
      RxPublish();
      for k := 0 to taking
        invariant Valid() && phase.Published?
        invariant accepted == old(accepted) + [Compose(old(slots[writeIndex].content.area), frame)]
      {
        var _ := Consume();
      }
      RxAdvance();
    }
  }

  lemma PointerDivides(w: nat, unitLen: nat)
    requires unitLen > 0
    ensures w * unitLen / unitLen == w
  {
    var x := w * unitLen;
    var d := x / unitLen;
    assert x == d * unitLen + x % unitLen;
    MulMonotone(w + 1, d, unitLen);
    MulMonotone(d + 1, w, unitLen);
  }

  // ----- the send side -----

  /** How many slots from the first on are ready without a gap. */
  function ReadyRun(slots: seq<Slot>): (k: nat)
    ensures k <= |slots|
    ensures forall i | 0 <= i < k :: slots[i].ready
    ensures k < |slots| ==> !slots[k].ready
  {
    if slots == [] || !slots[0].ready then 0 else 1 + ReadyRun(slots[1..])
  }

  /**
   * Drain the send buffer: exactly the unbroken run of ready slots at its start is sent, in order,
   * and released; no slot is sent twice even when the whole buffer is ready and the pointer wraps.
   */
  method SdaTxFun(slots: array<Slot>, unitLen: nat, bufferSize: nat) returns (sent: seq<seq<byte>>)
    requires Geometry(bufferSize, unitLen, slots.Length)
    requires forall i | 0 <= i < slots.Length :: |slots[i].content.area| >= ETH_HLEN + slots[i].content.payloadSize
    modifies slots
    ensures |sent| == ReadyRun(old(slots[..]))
    ensures forall i | 0 <= i < |sent| :: sent[i] == old(slots[i]).content.area[..ETH_HLEN + old(slots[i]).content.payloadSize]
    ensures forall i | 0 <= i < slots.Length :: slots[i] == if i < |sent| then old(slots[i]).(ready := false) else old(slots[i])
  {
    sent := [];
    if !slots[0].ready {
      return;
    }
    var offset := 0;
    ghost var w := 0;
    var more := true;
    while more
      invariant w < slots.Length && offset == w * unitLen
      invariant |sent| <= ReadyRun(old(slots[..])) && w == (if |sent| == slots.Length then 0 else |sent|)
      invariant forall i | 0 <= i < |sent| :: sent[i] == old(slots[i]).content.area[..ETH_HLEN + old(slots[i]).content.payloadSize]
      invariant forall i | 0 <= i < slots.Length :: slots[i] == if i < |sent| then old(slots[i]).(ready := false) else old(slots[i])
      invariant more == slots[w].ready
      decreases slots.Length - |sent|
    {
      PointerDivides(w, unitLen);
      var i := offset / unitLen;
      sent := sent + [slots[i].content.area[..ETH_HLEN + slots[i].content.payloadSize]];
      slots[i] := slots[i].(ready := false);
      WrapTest(bufferSize, unitLen, slots.Length, w);
      if offset + unitLen >= bufferSize {
        offset := 0;
        w := 0;
      } else {
        offset := offset + unitLen;
        w := w + 1;
      }
      PointerDivides(w, unitLen);
      more := slots[offset / unitLen].ready;
    }
  }
}

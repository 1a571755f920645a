/**
 * The RSN element of section 7.3.2.25 of IEEE Std 802.11-2007, and its two readers: the scan
 * printer, and the driver's extraction of the capabilities field.
 */
module Rsn {
  import opened Words
  import opened Ies

  type Suite = s: seq<byte> | |s| == 4 witness [0, 0, 0, 0]

  type PmkId = s: seq<byte> | |s| == 16 witness [0, 0, 0, 0, 0, 0, 0, 0, 0, 0, 0, 0, 0, 0, 0, 0]

  /** An element may end after any field; each tail holds the fields that follow. */
  datatype RsnElement = RsnElement(version: nat, rest: Option<GroupTail>)
  datatype GroupTail = GroupTail(group: Suite, rest: Option<PairwiseTail>)
  datatype PairwiseTail = PairwiseTail(pairwise: seq<Suite>, rest: Option<AkmTail>)
  datatype AkmTail = AkmTail(akm: seq<Suite>, rest: Option<CapTail>)
  datatype CapTail = CapTail(capabilities: nat, rest: Option<PmkTail>)
  datatype PmkTail = PmkTail(pmkids: seq<PmkId>, mgmt: Option<Suite>)

  // ----- encoding -----

  function Join(parts: seq<seq<byte>>): seq<byte>
  {
    if parts == [] then [] else parts[0] + Join(parts[1..])
  }

  function EncodeList(parts: seq<seq<byte>>): seq<byte>
  {
    Le16(|parts|) + Join(parts)
  }

  function EncodePmk(t: PmkTail): seq<byte>
  {
    EncodeList(t.pmkids) + if t.mgmt.None? then [] else t.mgmt.value
  }

  function EncodeCap(t: CapTail): seq<byte>
  {
    Le16(t.capabilities) + if t.rest.None? then [] else EncodePmk(t.rest.value)
  }

  function EncodeAkm(t: AkmTail): seq<byte>
  {
    EncodeList(t.akm) + if t.rest.None? then [] else EncodeCap(t.rest.value)
  }

  function EncodePairwise(t: PairwiseTail): seq<byte>
  {
    EncodeList(t.pairwise) + if t.rest.None? then [] else EncodeAkm(t.rest.value)
  }

  function EncodeGroup(t: GroupTail): seq<byte>
  {
    t.group + if t.rest.None? then [] else EncodePairwise(t.rest.value)
  }

  /** The body of the element, without its identifier and length. */
  function Encode(e: RsnElement): seq<byte>
  {
    Le16(e.version) + if e.rest.None? then [] else EncodeGroup(e.rest.value)
  }

  /** Sixteen-bit fields are sixteen bits wide, and the body fits an element. */
  predicate WellFormed(e: RsnElement)
  {
    && e.version < 0x1_0000 && |Encode(e)| < 256
    && match CapOf(e)
       case Some(t) => t.capabilities < 0x1_0000
       case None => true
  }

  function AkmOf(e: RsnElement): Option<AkmTail>
  {
    if e.rest.Some? && e.rest.value.rest.Some? then e.rest.value.rest.value.rest else None
  }

  /** The part from the capabilities field on, if the element reaches it. */
  function CapOf(e: RsnElement): Option<CapTail>
  {
    if AkmOf(e).Some? then AkmOf(e).value.rest else None
  }

  // ----- the printer -----

  /** What the printer reports; None stands for a default or a line not printed. */
  datatype Shown = Shown(version: nat, group: Option<Suite>, pairwise: Option<seq<Suite>>, akm: Option<seq<Suite>>,
                         capabilities: Option<nat>, pmkids: Option<nat>, mgmt: Option<Suite>, bogus: seq<byte>)

  /** The suites listed behind a count at the start of d. */
  function Suites(d: seq<byte>, count: nat): (s: seq<Suite>)
    requires 2 + 4 * count <= |d|
    ensures |s| == count
  {
    seq<Suite>(count, i requires 0 <= i < count => d[2 + 4 * i..6 + 4 * i])
  }

  function Count(d: seq<byte>): nat
    requires |d| >= 2
  {
    FromLe16(d[..2])
  }

  function ReadMgmt(s: Shown, d: seq<byte>): Shown
  {
    if |d| >= 4 then s.(mgmt := Some(d[..4]), bogus := d[4..]) else s.(bogus := d)
  }

  function ReadPmk(s: Shown, d: seq<byte>): Shown
  {
    if |d| < 2 then ReadMgmt(s, d)
    else if |d| < 2 + 16 * Count(d) then s.(bogus := d)
    else ReadMgmt(s.(pmkids := Some(Count(d))), d[2 + 16 * Count(d)..])
  }

  /** The printer on the part after the key-management suites. */
  function ReadTail(s: Shown, d: seq<byte>): Shown
  {
    if |d| < 2 then ReadPmk(s, d) else ReadPmk(s.(capabilities := Some(Count(d))), d[2..])
  }

  function ReadAkm(s: Shown, d: seq<byte>): Shown
  {
    if |d| < 2 then s
    else if 2 + 4 * Count(d) > |d| then s.(bogus := d)
    else ReadTail(s.(akm := Some(Suites(d, Count(d)))), d[2 + 4 * Count(d)..])
  }

  function ReadPairwise(s: Shown, d: seq<byte>): Shown
  {
    if |d| < 2 then s
    else if 2 + 4 * Count(d) > |d| then s.(bogus := d)
    else ReadAkm(s.(pairwise := Some(Suites(d, Count(d)))), d[2 + 4 * Count(d)..])
  }

  /** The printer as a decoder of the body. */
  function Read(d: seq<byte>): Shown
    requires |d| >= 2
  {
    var s := Shown(FromLe16(d[..2]), None, None, None, None, None, None, []);
    if |d| < 6 then s else ReadPairwise(s.(group := Some(d[2..6])), d[6..])
  }

  /** What should be shown of an element: each of its fields, the number of key identifiers, and nothing left over. */
  function Contents(e: RsnElement): Shown
  {
    var akm := AkmOf(e);
    var cap := CapOf(e);
    var pmk := if cap.Some? then cap.value.rest else None;
    Shown(e.version,
          if e.rest.Some? then Some(e.rest.value.group) else None,
          if e.rest.Some? && e.rest.value.rest.Some? then Some(e.rest.value.rest.value.pairwise) else None,
          if akm.Some? then Some(akm.value.akm) else None,
          if cap.Some? then Some(cap.value.capabilities) else None,
          if pmk.Some? then Some(|pmk.value.pmkids|) else None,
          if pmk.Some? then pmk.value.mgmt else None,
          [])
  }

  lemma OneMore(n: nat, k: nat)
    ensures n * (k + 1) == n + n * k
  {
  }

  lemma {:induction false} JoinLength(parts: seq<seq<byte>>, n: nat)
    requires forall p | p in parts :: |p| == n
    ensures |Join(parts)| == n * |parts|
  {
    if parts != [] {
      JoinLength(parts[1..], n);
      OneMore(n, |parts[1..]|);
    }
  }

  lemma SliceBehind(head: seq<byte>, tail: seq<byte>, at: nat)
    requires |head| == 4 && at + 4 <= |tail|
    ensures (head + tail)[at + 4..at + 8] == tail[at..at + 4]
  {
  }

  lemma {:induction false} JoinAt(parts: seq<Suite>, i: nat, rest: seq<byte>)
    requires i < |parts|
    ensures |Join(parts)| == 4 * |parts|
    ensures (Join(parts) + rest)[4 * i..4 * i + 4] == parts[i]
  {
    JoinLength(parts, 4);
    var tail := Join(parts[1..]) + rest;
    assert Join(parts) + rest == parts[0] + tail;
    if i > 0 {
      JoinAt(parts[1..], i - 1, rest);
      SliceBehind(parts[0], tail, 4 * i - 4);
    }
  }

  /** A counted suite list followed by more is read back with what follows. */
  lemma ReadList(parts: seq<Suite>, rest: seq<byte>)
    requires |parts| < 0x1_0000
    ensures var d := EncodeList(parts) + rest;
            |d| == 2 + 4 * |parts| + |rest| && Count(d) == |parts| && Suites(d, |parts|) == parts && d[2 + 4 * |parts|..] == rest
  {
    var d := EncodeList(parts) + rest;
    JoinLength(parts, 4);
    assert d == Le16(|parts|) + (Join(parts) + rest);
    assert d[..2] == Le16(|parts|);
    Le16RoundTrip(|parts|);
    forall i | 0 <= i < |parts|
      ensures Suites(d, |parts|)[i] == parts[i]
    {
      JoinAt(parts, i, rest);
      assert d[2 + 4 * i..6 + 4 * i] == (Join(parts) + rest)[4 * i..4 * i + 4];
    }
  }

  lemma ReadPmkInverts(s: Shown, p: PmkTail)
    requires s.mgmt.None? && s.bogus == [] && |EncodePmk(p)| < 256
    ensures ReadPmk(s, EncodePmk(p)) == s.(pmkids := Some(|p.pmkids|), mgmt := p.mgmt)
  {
    var d := EncodePmk(p);
    var m := if p.mgmt.None? then [] else p.mgmt.value;
    JoinLength(p.pmkids, 16);
    Le16RoundTrip(|p.pmkids|);
    assert d == Le16(|p.pmkids|) + (Join(p.pmkids) + m);
    assert d[..2] == Le16(|p.pmkids|);
    assert d[2 + 16 * |p.pmkids|..] == m;
    assert m != [] ==> m[..4] == m && m[4..] == [];
  }

  lemma ReadTailInverts(s: Shown, t: CapTail)
    requires s.capabilities.None? && s.pmkids.None? && s.mgmt.None? && s.bogus == []
    requires t.capabilities < 0x1_0000 && |EncodeCap(t)| < 256
    ensures ReadTail(s, EncodeCap(t)) ==
            s.(capabilities := Some(t.capabilities),
               pmkids := if t.rest.Some? then Some(|t.rest.value.pmkids|) else None,
               mgmt := if t.rest.Some? then t.rest.value.mgmt else None)
  {
    var d := EncodeCap(t);
    var d1 := if t.rest.None? then [] else EncodePmk(t.rest.value);
    Le16RoundTrip(t.capabilities);
    assert d[..2] == Le16(t.capabilities) && d[2..] == d1;
    if t.rest.Some? {
      ReadPmkInverts(s.(capabilities := Some(t.capabilities)), t.rest.value);
    }
  }

  lemma ReadAkmInverts(s: Shown, t: AkmTail)
    requires s.akm.None? && s.capabilities.None? && s.pmkids.None? && s.mgmt.None? && s.bogus == []
    requires |EncodeAkm(t)| < 256 && (t.rest.Some? ==> t.rest.value.capabilities < 0x1_0000)
    ensures ReadAkm(s, EncodeAkm(t)) ==
            if t.rest.None? then s.(akm := Some(t.akm)) else ReadTail(s.(akm := Some(t.akm)), EncodeCap(t.rest.value))
  {
    JoinLength(t.akm, 4);
    ReadList(t.akm, if t.rest.None? then [] else EncodeCap(t.rest.value));
  }

  lemma ReadPairwiseInverts(s: Shown, t: PairwiseTail)
    requires |EncodePairwise(t)| < 256
    ensures ReadPairwise(s, EncodePairwise(t)) ==
            ReadAkm(s.(pairwise := Some(t.pairwise)), if t.rest.None? then [] else EncodeAkm(t.rest.value))
  {
    JoinLength(t.pairwise, 4);
    ReadList(t.pairwise, if t.rest.None? then [] else EncodeAkm(t.rest.value));
  }

  /** The printer recovers every field of every well-formed element, with no bytes left over. */
  lemma ReadInverts(e: RsnElement)
    requires WellFormed(e)
    ensures Read(Encode(e)) == Contents(e)
  {
    var d := Encode(e);
    Le16RoundTrip(e.version);
    assert d[..2] == Le16(e.version);
    if e.rest.Some? {
      var g := e.rest.value;
      var d1 := if g.rest.None? then [] else EncodePairwise(g.rest.value);
      assert d == Le16(e.version) + (g.group + d1);
      assert d[2..6] == g.group && d[6..] == d1;
      var s := Shown(e.version, Some(g.group), None, None, None, None, None, []);
      if g.rest.Some? {
        ReadPairwiseInverts(s, g.rest.value);
        var s1 := s.(pairwise := Some(g.rest.value.pairwise));
        if g.rest.value.rest.Some? {
          var a := g.rest.value.rest.value;
          ReadAkmInverts(s1, a);
          if a.rest.Some? {
            ReadTailInverts(s1.(akm := Some(a.akm)), a.rest.value);
          }
        }
      }
    }
  }

  // ----- malformed elements -----

  /** The count at the start of d promises more items of the given size than d holds. */
  predicate CountTooLarge(d: seq<byte>, size: nat)
  {
    |d| >= 2 && |d| < 2 + size * (d[0] as int + 256 * d[1] as int)
  }

  lemma CountBytes(d: seq<byte>)
    requires |d| >= 2
    ensures Count(d) == d[0] as int + 256 * d[1] as int
  {
  }

  lemma ReadGroup(version: nat, group: Suite, rest: seq<byte>)
    requires version < 0x1_0000
    ensures Read(Le16(version) + group + rest) ==
            ReadPairwise(Shown(version, Some(group), None, None, None, None, None, []), rest)
  {
    var d := Le16(version) + group + rest;
    Le16RoundTrip(version);
    assert d[..2] == Le16(version) && d[2..6] == group && d[6..] == rest;
  }

  /** With a bad count of pairwise suites the printer shows what precedes it and the rest as left over; a single byte it ignores. */
  lemma BadPairwiseCount(version: nat, group: Suite, rest: seq<byte>)
    requires version < 0x1_0000 && (CountTooLarge(rest, 4) || |rest| == 1)
    ensures Read(Le16(version) + group + rest) ==
            Shown(version, Some(group), None, None, None, None, None, if |rest| == 1 then [] else rest)
  {
    ReadGroup(version, group, rest);
    if |rest| >= 2 {
      CountBytes(rest);
    }
  }

  lemma ReadPairwiseList(version: nat, group: Suite, pairwise: seq<Suite>, rest: seq<byte>)
    requires version < 0x1_0000 && |pairwise| < 0x1_0000
    ensures Read(Le16(version) + group + (EncodeList(pairwise) + rest)) ==
            ReadAkm(Shown(version, Some(group), Some(pairwise), None, None, None, None, []), rest)
  {
    ReadGroup(version, group, EncodeList(pairwise) + rest);
    ReadList(pairwise, rest);
  }

  /** The same for the count of key-management suites. */
  lemma BadAkmCount(version: nat, group: Suite, pairwise: seq<Suite>, rest: seq<byte>)
    requires version < 0x1_0000 && |pairwise| < 0x1_0000 && (CountTooLarge(rest, 4) || |rest| == 1)
    ensures Read(Le16(version) + group + (EncodeList(pairwise) + rest)) ==
            Shown(version, Some(group), Some(pairwise), None, None, None, None, if |rest| == 1 then [] else rest)
  {
    ReadPairwiseList(version, group, pairwise, rest);
    if |rest| >= 2 {
      CountBytes(rest);
    }
  }

  /** The same for the count of key identifiers; here a single byte is shown as left over. */
  lemma BadPmkidCount(version: nat, group: Suite, pairwise: seq<Suite>, akm: seq<Suite>, capabilities: nat, rest: seq<byte>)
    requires version < 0x1_0000 && |pairwise| < 0x1_0000 && |akm| < 0x1_0000 && capabilities < 0x1_0000
    requires CountTooLarge(rest, 16) || |rest| == 1
    ensures Read(Le16(version) + group + (EncodeList(pairwise) + (EncodeList(akm) + (Le16(capabilities) + rest)))) ==
            Shown(version, Some(group), Some(pairwise), Some(akm), Some(capabilities), None, None, rest)
  {
    ReadPairwiseList(version, group, pairwise, EncodeList(akm) + (Le16(capabilities) + rest));
    ReadList(akm, Le16(capabilities) + rest);
    CapThenRest(Shown(version, Some(group), Some(pairwise), Some(akm), None, None, None, []), capabilities, rest);
    if |rest| >= 2 {
      CountBytes(rest);
    }
  }

  lemma ReadPmkList(s: Shown, pmkids: seq<PmkId>, rest: seq<byte>)
    requires |pmkids| < 0x1_0000
    ensures ReadPmk(s, EncodeList(pmkids) + rest) == ReadMgmt(s.(pmkids := Some(|pmkids|)), rest)
  {
    var d := EncodeList(pmkids) + rest;
    JoinLength(pmkids, 16);
    Le16RoundTrip(|pmkids|);
    assert d == Le16(|pmkids|) + (Join(pmkids) + rest);
    assert d[..2] == Le16(|pmkids|);
    assert d[2 + 16 * |pmkids|..] == rest;
  }

  /** Behind the key identifiers four bytes are the management suite, and whatever follows is left over. */
  lemma LeftoverAtEnd(version: nat, group: Suite, pairwise: seq<Suite>, akm: seq<Suite>, capabilities: nat,
                      pmkids: seq<PmkId>, rest: seq<byte>)
    requires version < 0x1_0000 && |pairwise| < 0x1_0000 && |akm| < 0x1_0000 && capabilities < 0x1_0000
    requires |pmkids| < 0x1_0000
    ensures var tail := Le16(capabilities) + (EncodeList(pmkids) + rest);
            Read(Le16(version) + group + (EncodeList(pairwise) + (EncodeList(akm) + tail))) ==
            Shown(version, Some(group), Some(pairwise), Some(akm), Some(capabilities), Some(|pmkids|),
                  if |rest| >= 4 then Some(rest[..4]) else None, if |rest| >= 4 then rest[4..] else rest)
  {
    var tail := Le16(capabilities) + (EncodeList(pmkids) + rest);
    ReadPairwiseList(version, group, pairwise, EncodeList(akm) + tail);
    ReadList(akm, tail);
    var s := Shown(version, Some(group), Some(pairwise), Some(akm), None, None, None, []);
    CapThenRest(s, capabilities, EncodeList(pmkids) + rest);
    ReadPmkList(s.(capabilities := Some(capabilities)), pmkids, rest);
  }

  lemma CapThenRest(s: Shown, capabilities: nat, rest: seq<byte>)
    requires capabilities < 0x1_0000
    ensures ReadTail(s, Le16(capabilities) + rest) == ReadPmk(s.(capabilities := Some(capabilities)), rest)
  {
    var d := Le16(capabilities) + rest;
    Le16RoundTrip(capabilities);
    assert d[..2] == Le16(capabilities) && d[2..] == rest;
  }

  /** Collect the suites of a counted list; data is the index of its count. */
  method PrintSuites(d: seq<byte>, data: nat, count: nat) returns (suites: seq<Suite>)
    requires data <= |d| && 2 + 4 * count <= |d| - data
    ensures suites == Suites(d[data..], count)
  {
    suites := [];
    for i := 0 to count
      invariant |suites| == i && forall k | 0 <= k < i :: suites[k] == Suites(d[data..], count)[k]
    {
      var suite := d[data + 2 + i * 4..data + 6 + i * 4];
      assert suite == d[data..][2 + 4 * i..6 + 4 * i];
      suites := suites + [suite];
    }
  }

  /** The printer: data advances and len shrinks field by field. The table of printers never passes it fewer than two bytes. */
  method PrintRsnIe(d: seq<byte>) returns (s: Shown)
    requires 2 <= |d| < 256
    ensures s == Read(d)
  {
    var data, len := 0, |d|;
    s := Shown(FromLe16(d[..2]), None, None, None, None, None, None, []);
    data := data + 2;
    len := len - 2;
    if len < 4 {
      return;
    }
    s := s.(group := Some(d[data..data + 4]));
    data := data + 4;
    len := len - 4;
    s := PrintFromPairwise(d, data, len, s);
  }

  /** A counted list at data: its suites and where it ends, if it ends inside d. */
  method PrintList(d: seq<byte>, data: nat, len: nat) returns (fits: bool, suites: seq<Suite>, next: nat)
    requires data + len == |d| && len >= 2
    ensures fits <==> 2 + 4 * Count(d[data..]) <= len
    ensures fits ==> suites == Suites(d[data..], Count(d[data..]))
    ensures fits ==> data <= next <= |d| && d[next..] == d[data..][2 + 4 * Count(d[data..])..]
  {
    var count := FromLe16(d[data..data + 2]);
    assert d[data..][..2] == d[data..data + 2];
    fits, suites, next := 2 + count * 4 <= len, [], data;
    if fits {
      suites := PrintSuites(d, data, count);
      next := data + 2 + count * 4;
    }
  }

  method PrintFromPairwise(d: seq<byte>, start: nat, length: nat, shown: Shown) returns (s: Shown)
    requires start + length == |d|
    ensures s == ReadPairwise(shown, d[start..])
  {
    var data, len := start, length;
    s := shown;
    if len < 2 {
      return;
    }
    var fits, suites, next := PrintList(d, data, len);
    if !fits {
      s := s.(bogus := d[data..]);
      return;
    }
    s := s.(pairwise := Some(suites));
    len := len - (next - data);
    data := next;
    s := PrintFromAkm(d, data, len, s);
  }

  method PrintFromAkm(d: seq<byte>, start: nat, length: nat, shown: Shown) returns (s: Shown)
    requires start + length == |d|
    ensures s == ReadAkm(shown, d[start..])
  {
    var data, len := start, length;
    s := shown;
    if len < 2 {
      return;
    }
    var fits, suites, next := PrintList(d, data, len);
    if !fits {
      s := s.(bogus := d[data..]);
      return;
    }
    s := s.(akm := Some(suites));
    len := len - (next - data);
    data := next;
    s := PrintTail(d, data, len, s);
  }

  method PrintTail(d: seq<byte>, start: nat, length: nat, shown: Shown) returns (s: Shown)
    requires start + length == |d|
    ensures s == ReadTail(shown, d[start..])
  {
    var data, len := start, length;
    s := shown;
    ghost var d0 := d[data..];
    if len >= 2 {
      assert d0[..2] == d[data..data + 2] && d0[2..] == d[data + 2..];
      s := s.(capabilities := Some(FromLe16(d[data..data + 2])));
      data := data + 2;
      len := len - 2;
    }
    ghost var s1, d1 := s, d[data..];
    assert ReadTail(shown, d0) == ReadPmk(s1, d1);
    if len >= 2 {
      assert d1[..2] == d[data..data + 2];
      var pmkidCount := FromLe16(d[data..data + 2]);
      if len >= 2 + 16 * pmkidCount {
        assert d1[2 + 16 * pmkidCount..] == d[data + 2 + 16 * pmkidCount..];
        s := s.(pmkids := Some(pmkidCount));
        data := data + 2 + 16 * pmkidCount;
        len := len - (2 + 16 * pmkidCount);
      } else {
        s := s.(bogus := d[data..]);
        return;
      }
    }
    ghost var d2 := d[data..];
    assert ReadPmk(s1, d1) == ReadMgmt(s, d2);
    if len >= 4 {
      assert d2[..4] == d[data..data + 4] && d2[4..] == d[data + 4..];
      s := s.(mgmt := Some(d[data..data + 4]));
      data := data + 4;
      len := len - 4;
    }
    s := s.(bogus := d[data..]);
  }

  // ----- the driver -----

  const RSN_CAP_NULLCONF := 0xffff

  /** Offset of the count of key-management suites in an RSN element at p, as the driver computes it. */
  function AkmOffset(s: seq<byte>, p: nat): nat
    requires p + 8 < |s|
  {
    10 + 4 * s[p + 8] as int
  }

  /** Offset of the capabilities field in an RSN element at p, as the driver computes it. */
  function CapOffset(s: seq<byte>, p: nat): nat
    requires p + 8 < |s| && p + AkmOffset(s, p) < |s|
  {
    AkmOffset(s, p) + 2 + 4 * s[p + AkmOffset(s, p)] as int
  }

  /** The driver's reads for the element at p stay inside the buffer. */
  predicate ReadsInside(s: seq<byte>, p: nat)
    requires ElementAt(s, p)
  {
    s[p + 1] > 18 ==>
      p + AkmOffset(s, p) < |s| && (CapOffset(s, p) <= 2 + s[p + 1] as int ==> p + CapOffset(s, p) + 1 < |s|)
  }

  /** What the driver takes from the RSN element at p. */
  function CapAt(s: seq<byte>, p: nat): nat
    requires ElementAt(s, p) && ReadsInside(s, p)
  {
    if s[p + 1] <= 18 || CapOffset(s, p) > 2 + s[p + 1] as int then RSN_CAP_NULLCONF
    else FromLe16(s[p + CapOffset(s, p)..p + CapOffset(s, p) + 2])
  }

  /** The first RSN element from a position on, or the length if there is none. */
  function FirstRsn(s: seq<byte>, pos: nat): (p: nat)
    ensures p < |s| ==> ElementAt(s, p) && s[p] == EID_RSN
    decreases |s| - pos
  {
    if !ElementAt(s, pos) then |s| else if s[pos] == EID_RSN then pos else FirstRsn(s, After(s, pos))
  }

  /** The first RSN element of a buffer, if any, keeps the driver's reads inside. */
  predicate SafeToRead(s: seq<byte>)
  {
    FirstRsn(s, 0) < |s| ==> ReadsInside(s, FirstRsn(s, 0))
  }

  /** The capabilities word of a buffer: that of its first RSN element. */
  function BufferCap(s: seq<byte>): nat
    requires SafeToRead(s)
  {
    if FirstRsn(s, 0) < |s| then CapAt(s, FirstRsn(s, 0)) else RSN_CAP_NULLCONF
  }

  /** The word sent to the firmware, unless it stands for none. */
  function ConfiguredCap(s: seq<byte>): Option<nat>
    requires SafeToRead(s)
  {
    if BufferCap(s) == RSN_CAP_NULLCONF then None else Some(BufferCap(s))
  }

  /** Find the capabilities and configure them, after asking for the present ones; either command may fail. */
  method SetRsnCap(s: seq<byte>, getRet: int, setRet: int) returns (ret: int, sent: Option<nat>)
    requires SafeToRead(s)
    ensures sent == if getRet == 0 then ConfiguredCap(s) else None
    ensures ret == if ConfiguredCap(s).None? then 0 else if getRet != 0 then getRet else setRet
  {
    var rsnCap := FindRsnCap(s);
    ret, sent := 0, None;
    if rsnCap != RSN_CAP_NULLCONF {
      ret := getRet;
      if ret == 0 {
        sent := Some(rsnCap);
        ret := setRet;
      }
    }
  }

  /** The search: the first RSN element counts, if it is long enough. */
  method FindRsnCap(s: seq<byte>) returns (rsnCap: nat)
    requires SafeToRead(s)
    ensures rsnCap == BufferCap(s)
  {
    rsnCap := RSN_CAP_NULLCONF;
    var pos := 0;
    while pos + 1 < |s|
      invariant FirstRsn(s, 0) == FirstRsn(s, pos) && rsnCap == RSN_CAP_NULLCONF
      decreases |s| - pos
    {
      if pos + 2 + s[pos + 1] as int > |s| {
        break;
      }
      if s[pos] == EID_RSN {
        if s[pos + 1] <= 18 {
          break;
        }
        var offset := 1 + 1 + 2 + 4 + 2 + s[pos + 8] as int * 4;
        offset := offset + 2 + s[pos + offset] as int * 4;
        if offset > s[pos + 1] as int + 2 {
          break;
        }
        rsnCap := s[pos + offset] as int + 256 * s[pos + offset + 1] as int;
        break;
      }
      ghost var next := After(s, pos);
      pos := pos + 2 + s[pos + 1] as int;
      assert pos == next;
    }
  }

  /** The fields of a body up to the capabilities, and what follows them. */
  function Layout(v: seq<byte>, g: seq<byte>, n: nat, pairwise: seq<byte>, m: nat, akm: seq<byte>, c: seq<byte>): seq<byte>
  {
    v + g + Le16(n) + pairwise + Le16(m) + akm + c
  }

  lemma EncodeLayout(e: RsnElement)
    requires CapOf(e).Some?
    ensures var pw := e.rest.value.rest.value;
            var a := pw.rest.value;
            Encode(e) == Layout(Le16(e.version), e.rest.value.group, |pw.pairwise|, Join(pw.pairwise),
                                |a.akm|, Join(a.akm), EncodeCap(a.rest.value))
  {
    var g := e.rest.value;
    var pw := g.rest.value;
    var a := pw.rest.value;
    var c := EncodeCap(a.rest.value);
    assert EncodeGroup(g) == g.group + EncodePairwise(pw);
    assert EncodePairwise(pw) == Le16(|pw.pairwise|) + Join(pw.pairwise) + EncodeAkm(a);
    assert EncodeAkm(a) == Le16(|a.akm|) + Join(a.akm) + c;
  }

  lemma InsideSlice(s: seq<byte>, at: nat, n: nat, k: nat)
    requires at + n <= |s| && k < n
    ensures s[at..at + n][k] == s[at + k]
  {
  }

  lemma SliceOfSlice(s: seq<byte>, at: nat, n: nat, k: nat)
    requires at + n <= |s| && k + 2 <= n
    ensures s[at..at + n][k..k + 2] == s[at + k..at + k + 2]
  {
    var part := s[at..at + n];
    assert part[k..k + 2] == [part[k], part[k + 1]];
    assert s[at + k..at + k + 2] == [s[at + k], s[at + k + 1]];
  }

  /** The driver's computation on an element whose body d has the given suite counts. */
  lemma CapInBody(s: seq<byte>, p: nat, d: seq<byte>, n: nat, m: nat)
    requires p + 2 + |d| <= |s| && s[p + 1] == |d| && s[p + 2..p + 2 + |d|] == d
    requires |d| >= 12 + 4 * n + 4 * m && d[6] == n && d[8 + 4 * n] == m
    ensures ElementAt(s, p) && ReadsInside(s, p)
    ensures CapAt(s, p) == if |d| > 18 then FromLe16(d[10 + 4 * n + 4 * m..12 + 4 * n + 4 * m]) else RSN_CAP_NULLCONF
  {
    InsideSlice(s, p + 2, |d|, 6);
    InsideSlice(s, p + 2, |d|, 8 + 4 * n);
    if |d| > 18 {
      assert AkmOffset(s, p) == 10 + 4 * n;
      assert CapOffset(s, p) == 12 + 4 * n + 4 * m;
      SliceOfSlice(s, p + 2, |d|, 10 + 4 * n + 4 * m);
    }
  }

  /** Where to find the first count, the second count and the capabilities in a body. */
  predicate Located(d: seq<byte>, n: nat, m: nat, capabilities: nat)
  {
    && |d| >= 12 + 4 * n + 4 * m && d[6] == n && d[8 + 4 * n] == m
    && FromLe16(d[10 + 4 * n + 4 * m..12 + 4 * n + 4 * m]) == capabilities
  }

  /** The body d lies behind an RSN header at p. */
  predicate BodyAt(s: seq<byte>, p: nat, d: seq<byte>)
  {
    p + 2 + |d| <= |s| && s[p + 1] == |d| && s[p + 2..p + 2 + |d|] == d
  }

  lemma CapLocated(s: seq<byte>, p: nat, d: seq<byte>, n: nat, m: nat, capabilities: nat)
    requires BodyAt(s, p, d) && Located(d, n, m, capabilities)
    ensures ElementAt(s, p) && ReadsInside(s, p)
    ensures CapAt(s, p) == if |d| > 18 then capabilities else RSN_CAP_NULLCONF
  {
    CapInBody(s, p, d, n, m);
  }

  lemma LayoutOffsets(v: seq<byte>, g: seq<byte>, n: nat, pairwise: seq<byte>, m: nat, akm: seq<byte>, c: seq<byte>)
    requires |v| == 2 && |g| == 4 && |pairwise| == 4 * n && |akm| == 4 * m
    ensures var d := Layout(v, g, n, pairwise, m, akm, c);
            && |d| == 10 + 4 * n + 4 * m + |c| && d[10 + 4 * n + 4 * m..] == c
            && (|d| < 256 ==> d[6] == n && d[8 + 4 * n] == m)
  {
    var d := Layout(v, g, n, pairwise, m, akm, c);
    if |d| < 256 {
      assert d[6] == Le16(n)[0] && d[8 + 4 * n] == Le16(m)[0];
    }
  }

  lemma LayoutLocated(v: seq<byte>, g: seq<byte>, n: nat, pairwise: seq<byte>, m: nat, akm: seq<byte>, c: seq<byte>,
                      capabilities: nat)
    requires |v| == 2 && |g| == 4 && |pairwise| == 4 * n && |akm| == 4 * m
    requires |c| >= 2 && c[..2] == Le16(capabilities) && capabilities < 0x1_0000
    requires |Layout(v, g, n, pairwise, m, akm, c)| < 256
    ensures Located(Layout(v, g, n, pairwise, m, akm, c), n, m, capabilities)
  {
    LayoutOffsets(v, g, n, pairwise, m, akm, c);
    Le16RoundTrip(capabilities);
    TailSlice(Layout(v, g, n, pairwise, m, akm, c), 10 + 4 * n + 4 * m);
  }

  lemma TailSlice(d: seq<byte>, at: nat)
    requires at + 2 <= |d|
    ensures d[at..at + 2] == d[at..][..2]
  {
  }

  /** Where the suite counts and the capabilities lie in an encoded body. */
  lemma EncodedOffsets(e: RsnElement)
    requires WellFormed(e) && CapOf(e).Some?
    ensures Located(Encode(e), |e.rest.value.rest.value.pairwise|, |AkmOf(e).value.akm|, CapOf(e).value.capabilities)
  {
    var pw := e.rest.value.rest.value;
    var a := pw.rest.value;
    EncodeLayout(e);
    JoinLength(pw.pairwise, 4);
    JoinLength(a.akm, 4);
    var t := a.rest.value;
    assert EncodeCap(t)[..2] == Le16(t.capabilities);
    LayoutLocated(Le16(e.version), e.rest.value.group, |pw.pairwise|, Join(pw.pairwise), |a.akm|, Join(a.akm),
                  EncodeCap(t), t.capabilities);
  }

  /** What the driver takes from a well-formed element with a capabilities field at p: the field, unless the body is short. */
  lemma CapOfElement(s: seq<byte>, p: nat, e: RsnElement)
    requires WellFormed(e) && CapOf(e).Some? && BodyAt(s, p, Encode(e))
    ensures ElementAt(s, p) && ReadsInside(s, p)
    ensures CapAt(s, p) == if |Encode(e)| > 18 then CapOf(e).value.capabilities else 0xffff
  {
    EncodedOffsets(e);
    CapLocated(s, p, Encode(e), |e.rest.value.rest.value.pairwise|, |AkmOf(e).value.akm|, CapOf(e).value.capabilities);
  }

  /**
   * Both readers take the same word from a well-formed element with a capabilities field, wherever
   * it lies in the buffer, exactly when its body is longer than 18 bytes or the field holds the
   * value that stands for none.
   */
  lemma ReadersAgree(s: seq<byte>, p: nat, e: RsnElement)
    requires WellFormed(e) && CapOf(e).Some? && BodyAt(s, p, Encode(e))
    ensures ElementAt(s, p) && ReadsInside(s, p)
    ensures Some(CapAt(s, p)) == Read(Encode(e)).capabilities <==>
            |Encode(e)| > 18 || CapOf(e).value.capabilities == 0xffff
  {
    CapOfElement(s, p, e);
    ReadInverts(e);
  }

  /** The shortest element with a capabilities field: no suites, 12 bytes. */
  const SHORT := RsnElement(1, Some(GroupTail([0, 15, 172, 2],
    Some(PairwiseTail([], Some(AkmTail([], Some(CapTail(0, None)))))))))

  /** It is well-formed and the printer shows its capabilities, but the driver sees none. */
  lemma ShortElementPassedOver(s: seq<byte>, p: nat)
    requires BodyAt(s, p, Encode(SHORT))
    ensures WellFormed(SHORT) && |Encode(SHORT)| == 12 && Read(Encode(SHORT)).capabilities == Some(0)
    ensures ElementAt(s, p) && ReadsInside(s, p) && CapAt(s, p) == 0xffff
  {
    EncodeLayout(SHORT);
    ReadInverts(SHORT);
    CapOfElement(s, p, SHORT);
  }

  /** With at least one suite of each kind the body is long enough. */
  lemma OneSuiteEachIsLongEnough(e: RsnElement)
    requires WellFormed(e) && CapOf(e).Some?
    requires |e.rest.value.rest.value.pairwise| >= 1 && |AkmOf(e).value.akm| >= 1
    ensures |Encode(e)| > 18
  {
    EncodedOffsets(e);
  }

  /** Elements before the first RSN element do not hide it. */
  lemma {:induction false} FirstRsnAfter(before: seq<byte>, ies: seq<Ie>, tail: seq<byte>)
    requires forall ie | ie in ies :: Sized(ie) && ie.id != EID_RSN
    requires ElementAt(tail, 0) && tail[0] == EID_RSN
    ensures FirstRsn(before + Serialize(ies) + tail, |before|) == |before| + |Serialize(ies)|
    decreases |ies|
  {
    var s := before + Serialize(ies) + tail;
    if ies == [] {
      assert s == before + tail;
      assert s[|before|] == tail[0] && s[|before| + 1] == tail[1];
    } else {
      var one := SerializeOne(ies[0]);
      Reassociate(before, one, Serialize(ies[1..]), tail);
      assert s[|before|] == one[0] && s[|before| + 1] == one[1];
      FirstRsnAfter(before + one, ies[1..], tail);
    }
  }

  lemma Reassociate(a: seq<byte>, b: seq<byte>, c: seq<byte>, d: seq<byte>)
    ensures a + (b + c) + d == (a + b) + c + d
  {
  }

  /** A buffer without an RSN element configures nothing. */
  lemma NoRsnNoCap(s: seq<byte>)
    requires forall ie | ie in ParseFrom(s, 0) :: ie.id != 48
    ensures SafeToRead(s) && ConfiguredCap(s) == None
  {
    NoRsnFrom(s, 0);
  }

  lemma {:induction false} NoRsnFrom(s: seq<byte>, pos: nat)
    requires forall ie | ie in ParseFrom(s, pos) :: ie.id != 48
    ensures FirstRsn(s, pos) == |s|
    decreases |s| - pos
  {
    if ElementAt(s, pos) {
      assert Element(s, pos) in ParseFrom(s, pos);
      assert forall ie | ie in ParseFrom(s, After(s, pos)) :: ie in ParseFrom(s, pos);
      NoRsnFrom(s, After(s, pos));
    }
  }

  /** A buffer whose first RSN element, behind the given others, is e. */
  predicate FirstRsnIs(s: seq<byte>, ies: seq<Ie>, e: RsnElement, after: seq<byte>)
    requires forall ie | ie in ies :: Sized(ie)
    requires |Encode(e)| < 256
  {
    (forall ie | ie in ies :: ie.id != EID_RSN) && s == Serialize(ies) + (SerializeOne(Ie(EID_RSN, Encode(e))) + after)
  }

  lemma FirstRsnFound(s: seq<byte>, ies: seq<Ie>, e: RsnElement, after: seq<byte>)
    requires (forall ie | ie in ies :: Sized(ie)) && |Encode(e)| < 256 && FirstRsnIs(s, ies, e, after)
    ensures FirstRsn(s, 0) == |Serialize(ies)| < |s| && BodyAt(s, |Serialize(ies)|, Encode(e))
  {
    var d := Encode(e);
    StartsElement(d, after);
    FirstRsnFirst(ies, SerializeOne(Ie(EID_RSN, d)) + after);
    BodyBehind(Serialize(ies), d, after);
  }

  lemma FirstRsnFirst(ies: seq<Ie>, tail: seq<byte>)
    requires forall ie | ie in ies :: Sized(ie) && ie.id != EID_RSN
    requires ElementAt(tail, 0) && tail[0] == EID_RSN
    ensures FirstRsn(Serialize(ies) + tail, 0) == |Serialize(ies)|
  {
    FirstRsnAfter([], ies, tail);
    assert [] + Serialize(ies) == Serialize(ies);
  }

  lemma StartsElement(d: seq<byte>, after: seq<byte>)
    requires |d| < 256
    ensures var tail := SerializeOne(Ie(EID_RSN, d)) + after; ElementAt(tail, 0) && tail[0] == EID_RSN
  {
    var tail := SerializeOne(Ie(EID_RSN, d)) + after;
    assert tail[0] == EID_RSN && tail[1] == |d|;
  }

  lemma BodyBehind(before: seq<byte>, d: seq<byte>, after: seq<byte>)
    requires |d| < 256
    ensures BodyAt(before + (SerializeOne(Ie(EID_RSN, d)) + after), |before|, d)
  {
    var one := SerializeOne(Ie(EID_RSN, d));
    var s := before + (one + after);
    assert s[|before|..|before| + |one|] == one;
    assert s[|before| + 1] == one[1] && s[|before| + 2..|before| + |one|] == one[2..] == d;
  }

  /**
   * In a buffer of elements whose first RSN element is well-formed and has a capabilities field, the
   * driver configures the capabilities the printer shows exactly when the body is longer than 18
   * bytes and the field is not the value that stands for none; otherwise it configures nothing.
   */
  lemma DriverTakesShownCap(s: seq<byte>, ies: seq<Ie>, e: RsnElement, after: seq<byte>)
    requires (forall ie | ie in ies :: Sized(ie)) && WellFormed(e) && CapOf(e).Some? && FirstRsnIs(s, ies, e, after)
    ensures SafeToRead(s)
    ensures var shown := Read(Encode(e)).capabilities;
            var configured := ConfiguredCap(s);
            && (configured == shown <==> |Encode(e)| > 18 && CapOf(e).value.capabilities != 0xffff)
            && (configured == shown || configured == None)
  {
    FirstRsnFound(s, ies, e, after);
    CapOfElement(s, |Serialize(ies)|, e);
    ReadInverts(e);
  }
}

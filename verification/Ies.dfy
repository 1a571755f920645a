/** Information elements: parsing a buffer of them, and the driver's three filters. */
module Ies {
  import opened Words

  datatype Ie = Ie(id: byte, body: seq<byte>)

  const EID_RSN: byte := 48
  const EID_VENDOR: byte := 221

  // ----- grammar -----

  /** A whole element starts at the given position. */
  predicate ElementAt(s: seq<byte>, pos: nat)
  {
    pos + 1 < |s| && pos + 2 + s[pos + 1] <= |s|
  }

  function Element(s: seq<byte>, pos: nat): Ie
    requires ElementAt(s, pos)
  {
    Ie(s[pos], s[pos + 2..pos + 2 + s[pos + 1]])
  }

  function After(s: seq<byte>, pos: nat): (next: nat)
    requires ElementAt(s, pos)
    ensures pos + 2 <= next <= |s|
  {
    pos + 2 + s[pos + 1]
  }

  /** The elements from a position on, up to the first incomplete one. */
  function ParseFrom(s: seq<byte>, pos: nat): seq<Ie>
    decreases |s| - pos
  {
    if ElementAt(s, pos) then [Element(s, pos)] + ParseFrom(s, After(s, pos)) else []
  }

  predicate Sized(ie: Ie)
  {
    |ie.body| < 256
  }

  function SerializeOne(ie: Ie): seq<byte>
    requires Sized(ie)
  {
    [ie.id, |ie.body|] + ie.body
  }

  function Serialize(ies: seq<Ie>): seq<byte>
    requires forall ie | ie in ies :: Sized(ie)
  {
    if ies == [] then [] else SerializeOne(ies[0]) + Serialize(ies[1..])
  }

  function Filter(ies: seq<Ie>, keep: Ie -> bool): (r: seq<Ie>)
    ensures forall ie | ie in r :: ie in ies && keep(ie)
  {
    if ies == [] then []
    else if keep(ies[0]) then [ies[0]] + Filter(ies[1..], keep)
    else Filter(ies[1..], keep)
  }

  lemma {:induction false} ParsedSized(s: seq<byte>, pos: nat)
    ensures forall ie | ie in ParseFrom(s, pos) :: Sized(ie)
    decreases |s| - pos
  {
    if ElementAt(s, pos) {
      ParsedSized(s, After(s, pos));
    }
  }

  lemma ElementShifts(before: seq<byte>, rest: seq<byte>)
    ensures ElementAt(before + rest, |before|) <==> ElementAt(rest, 0)
  {
    assert |rest| > 1 ==> (before + rest)[|before| + 1] == rest[1];
  }

  /**
   * Serialised elements followed by anything that does not start with a whole element parse back
   * to exactly those elements: parsing finds the longest well-formed prefix.
   */
  lemma {:induction false} ParseSerialized(before: seq<byte>, ies: seq<Ie>, rest: seq<byte>)
    requires forall ie | ie in ies :: Sized(ie)
    requires !ElementAt(rest, 0)
    ensures ParseFrom(before + Serialize(ies) + rest, |before|) == ies
    decreases |ies|
  {
    var s := before + Serialize(ies) + rest;
    if ies == [] {
      assert s == before + rest;
      ElementShifts(before, rest);
    } else {
      var one := SerializeOne(ies[0]);
      assert s == (before + one) + Serialize(ies[1..]) + rest;
      assert s[|before|..|before| + |one|] == one;
      assert s[|before|] == one[0] && s[|before| + 1] == one[1];
      assert s[|before| + 2..|before| + |one|] == one[2..] == ies[0].body;
      ParseSerialized(before + one, ies[1..], rest);
    }
  }

  /** What parsing finds is a prefix of the buffer, and no whole element follows it. */
  lemma {:induction false} SerializeParsed(s: seq<byte>, pos: nat)
    requires pos <= |s|
    ensures (forall ie | ie in ParseFrom(s, pos) :: Sized(ie))
    ensures var text := Serialize(ParseFrom(s, pos)); text <= s[pos..] && !ElementAt(s, pos + |text|)
    decreases |s| - pos
  {
    ParsedSized(s, pos);
    if ElementAt(s, pos) {
      var next := After(s, pos);
      SerializeParsed(s, next);
      var rest := Serialize(ParseFrom(s, next));
      var one := SerializeOne(Element(s, pos));
      assert s[pos..] == one + s[next..];
      assert ParseFrom(s, pos)[1..] == ParseFrom(s, next);
      assert Serialize(ParseFrom(s, pos)) == one + rest;
    }
  }

  lemma {:induction false} FilterTwice(ies: seq<Ie>, keep: Ie -> bool)
    ensures Filter(Filter(ies, keep), keep) == Filter(ies, keep)
  {
    if ies != [] {
      FilterTwice(ies[1..], keep);
      if keep(ies[0]) {
        assert Filter(ies, keep)[1..] == Filter(ies[1..], keep);
      }
    }
  }

  /** The text a filter leaves of a buffer. */
  function Filtered(s: seq<byte>, keep: Ie -> bool): seq<byte>
  {
    ParsedSized(s, 0);
    Serialize(Filter(ParseFrom(s, 0), keep))
  }

  /**
   * A filtered buffer is well-formed throughout, holds just the kept elements in their order, and
   * filtering it again changes nothing.
   */
  lemma FilteredText(s: seq<byte>, keep: Ie -> bool)
    ensures ParseFrom(Filtered(s, keep), 0) == Filter(ParseFrom(s, 0), keep)
    ensures forall ie | ie in ParseFrom(Filtered(s, keep), 0) :: keep(ie)
    ensures Filtered(Filtered(s, keep), keep) == Filtered(s, keep)
  {
    ParsedSized(s, 0);
    var kept := Filter(ParseFrom(s, 0), keep);
    ParseSerialized([], kept, []);
    assert [] + Serialize(kept) + [] == Serialize(kept);
    FilterTwice(ParseFrom(s, 0), keep);
  }

  // ----- kinds of elements -----

  predicate IsVendor(ie: Ie, oui: seq<byte>)
  {
    ie.id == EID_VENDOR && |ie.body| >= 4 && ie.body[..4] == oui
  }

  predicate IsWpa(ie: Ie) { IsVendor(ie, [0x00, 0x50, 0xf2, 0x01]) }
  predicate IsWps(ie: Ie) { IsVendor(ie, [0x00, 0x50, 0xf2, 0x04]) }
  predicate IsP2p(ie: Ie) { IsVendor(ie, [0x50, 0x6f, 0x9a, 0x09]) }
  predicate IsWfd(ie: Ie) { IsVendor(ie, [0x50, 0x6f, 0x9a, 0x0a]) }
  predicate IsRsn(ie: Ie) { ie.id == EID_RSN }

  /** The vendor test as the driver makes it, on the buffer. */
  predicate VendorAt(s: seq<byte>, pos: nat, a: byte, b: byte, c: byte, d: byte)
    requires ElementAt(s, pos)
    ensures VendorAt(s, pos, a, b, c, d) == IsVendor(Element(s, pos), [a, b, c, d])
  {
    assert s[pos + 1] >= 4 ==> Element(s, pos).body[..4] == [s[pos + 2], s[pos + 3], s[pos + 4], s[pos + 5]];
    s[pos] == EID_VENDOR && s[pos + 1] >= 4 &&
    s[pos + 2] == a && s[pos + 3] == b && s[pos + 4] == c && s[pos + 5] == d
  }

  predicate RsnAt(s: seq<byte>, pos: nat)
    requires ElementAt(s, pos)
  {
    s[pos] == EID_RSN
  }

  /** What each filter keeps; append tells whether P2P and WFD elements may stay. */
  function KeptInAssocReq(append: bool): Ie -> bool
  {
    ie => !IsWpa(ie) && !IsRsn(ie) && (append || !(IsP2p(ie) || IsWfd(ie)))
  }

  function KeptInProbeReq(append: bool): Ie -> bool
  {
    ie => append || !(IsP2p(ie) || IsWfd(ie))
  }

  function KeptInProbeResp(): Ie -> bool
  {
    ie => !IsP2p(ie) && !IsWfd(ie)
  }

  // ----- the loops -----

  /** The output buffer so far, and what the rest of the input will add. */
  ghost predicate Progress(s: seq<byte>, pos: nat, out: seq<byte>, keep: Ie -> bool)
  {
    pos <= |s| && |out| <= pos &&
    (forall ie | ie in ParseFrom(s, pos) :: Sized(ie)) &&
    Filtered(s, keep) == out + Serialize(Filter(ParseFrom(s, pos), keep))
  }

  lemma ProgressStarts(s: seq<byte>, keep: Ie -> bool)
    ensures Progress(s, 0, [], keep)
  {
    ParsedSized(s, 0);
    assert [] + Filtered(s, keep) == Filtered(s, keep);
  }

  lemma SerializeCons(ie: Ie, ies: seq<Ie>)
    requires Sized(ie) && forall e | e in ies :: Sized(e)
    ensures Serialize([ie] + ies) == SerializeOne(ie) + Serialize(ies)
  {
    assert ([ie] + ies)[1..] == ies;
  }

  lemma FilterStep(s: seq<byte>, pos: nat, keep: Ie -> bool)
    requires ElementAt(s, pos)
    ensures var rest := Filter(ParseFrom(s, After(s, pos)), keep);
            Filter(ParseFrom(s, pos), keep) == if keep(Element(s, pos)) then [Element(s, pos)] + rest else rest
  {
    assert ParseFrom(s, pos)[1..] == ParseFrom(s, After(s, pos));
  }

  lemma ProgressStep(s: seq<byte>, pos: nat, out: seq<byte>, keep: Ie -> bool)
    requires Progress(s, pos, out, keep) && ElementAt(s, pos)
    ensures Progress(s, After(s, pos), if keep(Element(s, pos)) then out + s[pos..After(s, pos)] else out, keep)
  {
    var next := After(s, pos);
    var ie := Element(s, pos);
    ParsedSized(s, next);
    FilterStep(s, pos, keep);
    if keep(ie) {
      var rest := Filter(ParseFrom(s, next), keep);
      SerializeCons(ie, rest);
      assert s[pos..next] == SerializeOne(ie);
      assert out + (s[pos..next] + Serialize(rest)) == (out + s[pos..next]) + Serialize(rest);
    }
  }

  lemma ProgressEnds(s: seq<byte>, pos: nat, out: seq<byte>, keep: Ie -> bool)
    requires Progress(s, pos, out, keep) && !ElementAt(s, pos)
    ensures out == Filtered(s, keep)
  {
    assert out + [] == out;
  }

  /** memcpy of the element at pos behind the output so far. */
  method Append(s: seq<byte>, pos: nat, buf: array<byte>, len: nat) returns (len': nat)
    requires ElementAt(s, pos) && len <= pos && buf.Length == |s|
    modifies buf
    ensures len' == len + (After(s, pos) - pos) && len' <= After(s, pos)
    ensures buf[..len'] == old(buf[..len]) + s[pos..After(s, pos)]
  {
    var n := 2 + s[pos + 1] as int;
    forall i | 0 <= i < n {
      buf[len + i] := s[pos + i];
    }
    len' := len + n;
  }

  predicate HasWps(ies: seq<Ie>)
  {
    ies != [] && (IsWps(ies[0]) || HasWps(ies[1..]))
  }

  lemma {:induction false} HasWpsMeans(ies: seq<Ie>)
    ensures HasWps(ies) <==> exists ie | ie in ies :: IsWps(ie)
  {
    if ies != [] {
      HasWpsMeans(ies[1..]);
    }
  }

  /** One pass of the association loop: keep the element or not, and note a WPS element. */
  method AssocPass(s: seq<byte>, pos: nat, append: bool, buf: array<byte>, len: nat, wpsFlag: bool)
    returns (len': nat, wpsFlag': bool)
    requires ElementAt(s, pos) && buf.Length == |s| && len <= buf.Length
    requires Progress(s, pos, buf[..len], KeptInAssocReq(append))
    modifies buf
    ensures len' <= buf.Length && Progress(s, After(s, pos), buf[..len'], KeptInAssocReq(append))
    ensures wpsFlag' || HasWps(ParseFrom(s, After(s, pos))) <==> wpsFlag || HasWps(ParseFrom(s, pos))
  {
    ProgressStep(s, pos, buf[..len], KeptInAssocReq(append));
    assert ParseFrom(s, pos)[1..] == ParseFrom(s, After(s, pos));
    len', wpsFlag' := len, wpsFlag;
    if !(VendorAt(s, pos, 0x00, 0x50, 0xf2, 0x01) || RsnAt(s, pos)) {
      if (VendorAt(s, pos, 0x50, 0x6f, 0x9a, 0x09) || VendorAt(s, pos, 0x50, 0x6f, 0x9a, 0x0a)) && !append {
      } else {
        len' := Append(s, pos, buf, len);
      }
    }
    if VendorAt(s, pos, 0x00, 0x50, 0xf2, 0x04) {
      wpsFlag' := true;
    }
  }

  /**
   * Association request: RSN and WPA elements go, P2P and WFD elements stay only if appending them
   * is allowed; the WPS flag tells whether the well-formed prefix holds a WPS element.
   */
  method SetAssocReqIes(s: seq<byte>, append: bool) returns (buf: array<byte>, len: nat, wpsFlag: bool)
    ensures len <= buf.Length && buf[..len] == Filtered(s, KeptInAssocReq(append))
    ensures wpsFlag <==> exists ie | ie in ParseFrom(s, 0) ::
      ie.id == 221 && |ie.body| >= 4 && ie.body[..4] == [0x00, 0x50, 0xf2, 0x04]
  {
    buf := new byte[|s|](_ => 0);
    wpsFlag := false;
    var pos := 0;
    len := 0;
    HasWpsMeans(ParseFrom(s, 0));
    ProgressStarts(s, KeptInAssocReq(append));
    assert buf[..0] == [];
    while pos + 1 < |s|
      invariant len <= buf.Length && Progress(s, pos, buf[..len], KeptInAssocReq(append))
      invariant HasWps(ParseFrom(s, 0)) <==> wpsFlag || HasWps(ParseFrom(s, pos))
      decreases |s| - pos
    {
      if pos + 2 + s[pos + 1] > |s| {
        break;
      }
      len, wpsFlag := AssocPass(s, pos, append, buf, len, wpsFlag);
      ghost var next := After(s, pos);
      pos := pos + 2 + s[pos + 1];
      assert pos == next;
    }
    ProgressEnds(s, pos, buf[..len], KeptInAssocReq(append));
  }

  /** Probe request: P2P and WFD elements stay only if appending them is allowed. */
  method SetProbeReqIes(s: seq<byte>, append: bool) returns (buf: array<byte>, len: nat)
    ensures len <= buf.Length && buf[..len] == Filtered(s, KeptInProbeReq(append))
  {
    buf := new byte[|s|](_ => 0);
    var pos := 0;
    len := 0;
    ghost var keep := KeptInProbeReq(append);
    ProgressStarts(s, keep);
    assert buf[..0] == [];
    while pos + 1 < |s|
      invariant len <= buf.Length && Progress(s, pos, buf[..len], keep)
      decreases |s| - pos
    {
      if pos + 2 + s[pos + 1] > |s| {
        break;
      }
      ProgressStep(s, pos, buf[..len], keep);
      if (VendorAt(s, pos, 0x50, 0x6f, 0x9a, 0x09) || VendorAt(s, pos, 0x50, 0x6f, 0x9a, 0x0a)) && !append {
      } else {
        len := Append(s, pos, buf, len);
      }
      ghost var next := After(s, pos);
      pos := pos + 2 + s[pos + 1];
      assert pos == next;
    }
    ProgressEnds(s, pos, buf[..len], keep);
  }

  /** Probe response of an access point: P2P and WFD elements always go. */
  method SetApProbeRespIes(s: seq<byte>) returns (buf: array<byte>, len: nat)
    ensures len <= buf.Length && buf[..len] == Filtered(s, KeptInProbeResp())
  {
    buf := new byte[|s|](_ => 0);
    var pos := 0;
    len := 0;
    ghost var keep := KeptInProbeResp();
    ProgressStarts(s, keep);
    assert buf[..0] == [];
    while pos + 1 < |s|
      invariant len <= buf.Length && Progress(s, pos, buf[..len], keep)
      decreases |s| - pos
    {
      if pos + 2 + s[pos + 1] > |s| {
        break;
      }
      ProgressStep(s, pos, buf[..len], keep);
      if !VendorAt(s, pos, 0x50, 0x6f, 0x9a, 0x09) && !VendorAt(s, pos, 0x50, 0x6f, 0x9a, 0x0a) {
        len := Append(s, pos, buf, len);
      }
      ghost var next := After(s, pos);
      pos := pos + 2 + s[pos + 1];
      assert pos == next;
    }
    ProgressEnds(s, pos, buf[..len], keep);
  }

  lemma {:induction false} FilterMembers(ies: seq<Ie>, keep: Ie -> bool, ie: Ie)
    ensures ie in Filter(ies, keep) <==> ie in ies && keep(ie)
  {
    if ies != [] {
      FilterMembers(ies[1..], keep, ie);
    }
  }

  /** The element is a vendor's, with the given first four bytes. */
  predicate VendorBytes(ie: Ie, four: seq<byte>)
  {
    ie.id == 221 && |ie.body| >= 4 && ie.body[..4] == four
  }

  /** Of the elements of a buffer, exactly these are left for an association request. */
  lemma AssocReqSurvivors(s: seq<byte>, append: bool, ie: Ie)
    ensures ie in ParseFrom(Filtered(s, KeptInAssocReq(append)), 0) <==>
      && ie in ParseFrom(s, 0)
      && ie.id != 48 && !VendorBytes(ie, [0x00, 0x50, 0xf2, 0x01])
      && (append || !(VendorBytes(ie, [0x50, 0x6f, 0x9a, 0x09]) || VendorBytes(ie, [0x50, 0x6f, 0x9a, 0x0a])))
  {
    FilteredText(s, KeptInAssocReq(append));
    FilterMembers(ParseFrom(s, 0), KeptInAssocReq(append), ie);
  }

  /** For a probe request. */
  lemma ProbeReqSurvivors(s: seq<byte>, append: bool, ie: Ie)
    ensures ie in ParseFrom(Filtered(s, KeptInProbeReq(append)), 0) <==>
      && ie in ParseFrom(s, 0)
      && (append || !(VendorBytes(ie, [0x50, 0x6f, 0x9a, 0x09]) || VendorBytes(ie, [0x50, 0x6f, 0x9a, 0x0a])))
  {
    FilteredText(s, KeptInProbeReq(append));
    FilterMembers(ParseFrom(s, 0), KeptInProbeReq(append), ie);
  }

  /** For a probe response. */
  lemma ProbeRespSurvivors(s: seq<byte>, ie: Ie)
    ensures ie in ParseFrom(Filtered(s, KeptInProbeResp()), 0) <==>
      && ie in ParseFrom(s, 0)
      && !VendorBytes(ie, [0x50, 0x6f, 0x9a, 0x09]) && !VendorBytes(ie, [0x50, 0x6f, 0x9a, 0x0a])
  {
    FilteredText(s, KeptInProbeResp());
    FilterMembers(ParseFrom(s, 0), KeptInProbeResp(), ie);
  }

  /** No RSN or WPA element survives the association filter. */
  lemma AssocReqHidesSecurity(s: seq<byte>, append: bool)
    ensures forall ie | ie in ParseFrom(Filtered(s, KeptInAssocReq(append)), 0) :: !IsRsn(ie) && !IsWpa(ie)
  {
    FilteredText(s, KeptInAssocReq(append));
  }
}

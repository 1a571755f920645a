/** Indices of virtual interfaces: a bitmap of free indices, searched by interface type. */
module VifIndex {
  import opened Words
  import opened Bits

  datatype IfType = Station | Adhoc | Ap | P2pClient | P2pGo | Unsupported

  datatype Vif = Vif(index: nat, ifType: IfType)

  /** How the device was set up. */
  datatype Config = Config(vifMax: nat, maxNormIface: nat, p2pConcurrent: bool, p2pDedicate: bool, p2pConcurrentAp: bool)

  predicate IsP2p(t: IfType)
  {
    t.P2pClient? || t.P2pGo?
  }

  /** Dedicated P2P devices hand out indices from the top. */
  predicate Dedicated(c: Config)
  {
    c.p2pConcurrent && c.p2pDedicate
  }

  /** The indices a type may get: from lo up to, not including, hi. */
  function Lo(c: Config, t: IfType): nat
  {
    if IsP2p(t) then c.maxNormIface
    else if Dedicated(c) && !(c.p2pConcurrentAp && t.Ap?) then 1
    else 0
  }

  function Hi(c: Config, t: IfType): nat
  {
    if Dedicated(c) && c.p2pConcurrentAp && t.Ap? then c.maxNormIface else c.vifMax
  }

  predicate InRange(c: Config, t: IfType, i: nat)
  {
    !t.Unsupported? && Lo(c, t) <= i < Hi(c, t)
  }

  /** Index i is searched no later than index j. */
  predicate Preferred(c: Config, t: IfType, i: nat, j: nat)
  {
    if Dedicated(c) && !(c.p2pConcurrentAp && t.Ap?) then i >= j else i <= j
  }

  predicate HasIndex(vifs: seq<Vif>, i: nat)
  {
    exists k | 0 <= k < |vifs| :: vifs[k].index == i
  }

  /** The map holds exactly the indices not in use. */
  ghost predicate Complement(free: nat, vifs: seq<Vif>, max: nat)
  {
    forall i | 0 <= i < max :: Bit(free, i) <==> !HasIndex(vifs, i)
  }

  /** Distinct indices below the maximum; P2P interfaces stay out of the range kept for others. */
  predicate InPlace(c: Config, vifs: seq<Vif>)
  {
    && (forall k | 0 <= k < |vifs| :: vifs[k].index < c.vifMax)
    && (forall j, k | 0 <= j < k < |vifs| :: vifs[j].index != vifs[k].index)
    && (forall k | 0 <= k < |vifs| :: IsP2p(vifs[k].ifType) ==> vifs[k].index >= c.maxNormIface)
  }

  lemma InPlaceAdd(c: Config, vifs: seq<Vif>, v: Vif)
    requires InPlace(c, vifs) && !HasIndex(vifs, v.index)
    requires v.index < c.vifMax && (IsP2p(v.ifType) ==> c.maxNormIface <= v.index)
    ensures InPlace(c, vifs + [v])
  {
    assert forall k | 0 <= k < |vifs| :: vifs[k].index != v.index;
  }

  lemma InPlaceUnlink(c: Config, vifs: seq<Vif>, k: nat)
    requires InPlace(c, vifs) && k < |vifs|
    ensures InPlace(c, vifs[..k] + vifs[k + 1..])
  {
    var rest := vifs[..k] + vifs[k + 1..];
    assert forall j | 0 <= j < |rest| :: rest[j] == vifs[if j < k then j else j + 1];
  }

  predicate HasAdhoc(vifs: seq<Vif>)
  {
    exists k | 0 <= k < |vifs| :: vifs[k].ifType.Adhoc?
  }

  /** At most one interface is ad hoc, and the flag tells whether one is. */
  predicate AdhocKnown(vifs: seq<Vif>, active: bool)
  {
    && (active <==> HasAdhoc(vifs))
    && forall j, k | 0 <= j < k < |vifs| :: !(vifs[j].ifType.Adhoc? && vifs[k].ifType.Adhoc?)
  }

  lemma AdhocKnownAdd(vifs: seq<Vif>, v: Vif)
    requires AdhocKnown(vifs, false)
    ensures AdhocKnown(vifs + [v], v.ifType.Adhoc?)
  {
    assert forall k | 0 <= k < |vifs| :: (vifs + [v])[k] == vifs[k] && !vifs[k].ifType.Adhoc?;
    assert (vifs + [v])[|vifs|] == v;
  }

  lemma AdhocKnownUnlink(vifs: seq<Vif>, k: nat, active: bool)
    requires AdhocKnown(vifs, active) && k < |vifs|
    ensures AdhocKnown(vifs[..k] + vifs[k + 1..], active && !vifs[k].ifType.Adhoc?)
  {
    var rest := vifs[..k] + vifs[k + 1..];
    assert forall j | 0 <= j < |rest| :: rest[j] == vifs[if j < k then j else j + 1];
    if HasAdhoc(vifs) && !vifs[k].ifType.Adhoc? {
      var j :| 0 <= j < |vifs| && vifs[j].ifType.Adhoc?;
      assert rest[if j < k then j else j - 1].ifType.Adhoc?;
    }
  }

  /** The map and the ad hoc flag tell the truth about interfaces that are where they belong. */
  ghost predicate Consistent(c: Config, vifs: seq<Vif>, free: nat, adhoc: bool)
  {
    && free < 256 && Complement(free, vifs, c.vifMax)
    && InPlace(c, vifs) && AdhocKnown(vifs, adhoc)
  }

  lemma ConsistentAdd(c: Config, vifs: seq<Vif>, free: nat, v: Vif)
    requires Consistent(c, vifs, free, false) && !HasIndex(vifs, v.index)
    requires v.index < c.vifMax && (IsP2p(v.ifType) ==> c.maxNormIface <= v.index)
    ensures Consistent(c, vifs + [v], ClearBit(free, v.index), v.ifType.Adhoc?)
  {
    MapAfterAdd(free, vifs, v, c.vifMax);
    InPlaceAdd(c, vifs, v);
    AdhocKnownAdd(vifs, v);
  }

  lemma ConsistentUnlink(c: Config, vifs: seq<Vif>, free: nat, adhoc: bool, k: nat)
    requires Consistent(c, vifs, free, adhoc) && c.vifMax <= 8 && k < |vifs|
    ensures Consistent(c, vifs[..k] + vifs[k + 1..], SetBit(free, vifs[k].index), adhoc && !vifs[k].ifType.Adhoc?)
  {
    MapAfterDelete(c, free, vifs, k);
    InPlaceUnlink(c, vifs, k);
    AdhocKnownUnlink(vifs, k, adhoc);
  }

  class Device {
    const config: Config
    var availIdxMap: nat        // an 8-bit map
    var numVif: nat             // an 8-bit counter
    var ibssIfActive: bool
    var vifs: seq<Vif>
    ghost const uncounted: nat  // interfaces made before counting started: 0 or 1

    /**
     * Live interfaces have distinct indices below the maximum, the map holds exactly the other
     * indices, the counter counts the live interfaces but the uncounted one, P2P interfaces stay
     * out of the range kept for others, and the ad hoc flag tells of the only ad hoc interface.
     */
    ghost predicate Valid()
      reads this
    {
      && 0 < config.maxNormIface <= config.vifMax <= 8 && uncounted <= 1
      && Consistent(config, vifs, availIdxMap, ibssIfActive)
      && numVif == (|vifs| + 256 - uncounted) % 256
    }

    /** A device without interfaces, whose counter counts all that come. */
    constructor Bare(config: Config)
      requires 0 < config.maxNormIface <= config.vifMax <= 8
      ensures Valid() && vifs == [] && uncounted == 0 && numVif == 0 && this.config == config
    {
      this.config := config;
      availIdxMap, numVif, ibssIfActive, vifs, uncounted := 0, 0, false, [], 0;
      new;
      FreeAll();
    }

    /** The driver's own start: the first station interface takes index 0 without being counted. */
    constructor AtProbe(config: Config)
      requires 0 < config.maxNormIface <= config.vifMax <= 8
      ensures Valid() && vifs == [Vif(0, Station)] && uncounted == 1 && numVif == 0 && this.config == config
    {
      this.config := config;
      availIdxMap, numVif, ibssIfActive, vifs, uncounted := 0, 0, false, [], 1;
      new;
      FreeAll();
      ConsistentAdd(config, [], availIdxMap, Vif(0, Station));
      var _ := InterfaceAdd(0, Station, true);
    }

    /** Mark every index free. */
    method FreeAll()
      requires config.vifMax <= 8 && availIdxMap == 0
      modifies this`availIdxMap
      ensures availIdxMap < 256 && forall i | 0 <= i < config.vifMax :: Bit(availIdxMap, i)
    {
      for i := 0 to config.vifMax
        invariant availIdxMap < 256 && forall k | 0 <= k < i :: Bit(availIdxMap, k)
      {
        forall k | 0 <= k <= i
          ensures Bit(SetBit(availIdxMap, i), k)
        {
          SetBitBits(availIdxMap, i, k);
        }
        SetBitByte(availIdxMap, i);
        availIdxMap := SetBit(availIdxMap, i);
      }
    }

    /** Ad hoc interfaces exclude others: no search is made then. */
    predicate Excluded(t: IfType)
      reads this
    {
      ibssIfActive || (t.Adhoc? && numVif != 0)
    }

    method SearchUp(lo: nat, hi: nat) returns (found: bool, index: nat)
      ensures found ==> lo <= index < hi && Bit(availIdxMap, index) && forall i | lo <= i < index :: !Bit(availIdxMap, i)
      ensures !found ==> forall i | lo <= i < hi :: !Bit(availIdxMap, i)
    {
      index := lo;
      while index < hi
        invariant forall i | lo <= i < index :: !Bit(availIdxMap, i)
      {
        if Bit(availIdxMap, index) {
          return true, index;
        }
        index := index + 1;
      }
      return false, 0;
    }

    method SearchDown(lo: nat, hi: nat) returns (found: bool, index: nat)
      ensures found ==> lo <= index < hi && Bit(availIdxMap, index) && forall i | index < i < hi :: !Bit(availIdxMap, i)
      ensures !found ==> forall i | lo <= i < hi :: !Bit(availIdxMap, i)
    {
      var i: int := hi - 1;
      while i >= lo
        invariant i < hi && forall j | i < j < hi && lo <= j :: !Bit(availIdxMap, j)
      {
        if Bit(availIdxMap, i) {
          return true, i;
        }
        i := i - 1;
      }
      return false, 0;
    }

    /**
     * The index for a new interface of a type: the preferred free one of the type's range. Without
     * ad hoc exclusion the search fails only when every index of the range is taken.
     */
    method IsValidIftype(t: IfType) returns (found: bool, index: nat)
      requires Valid()
      ensures found ==> InRange(config, t, index) && !HasIndex(vifs, index) && !Excluded(t)
      ensures found ==> forall i | InRange(config, t, i) && !HasIndex(vifs, i) :: Preferred(config, t, index, i)
      ensures found ==> !ibssIfActive && (t.Adhoc? ==> numVif == 0) && index < config.vifMax
      ensures found && (t.P2pClient? || t.P2pGo?) ==>
        config.maxNormIface <= index && forall i | config.maxNormIface <= i < config.vifMax && !HasIndex(vifs, i) ::
          if config.p2pConcurrent && config.p2pDedicate then i <= index else index <= i
      ensures found && !(t.P2pClient? || t.P2pGo?) && !(config.p2pConcurrent && config.p2pDedicate) ==>
        forall i | 0 <= i < config.vifMax && !HasIndex(vifs, i) :: index <= i
      ensures found && t.Ap? && config.p2pConcurrent && config.p2pDedicate && config.p2pConcurrentAp ==>
        index < config.maxNormIface && forall i | 0 <= i < config.maxNormIface && !HasIndex(vifs, i) :: index <= i
      ensures found && (t.Station? || t.Adhoc? || (t.Ap? && !config.p2pConcurrentAp)) && config.p2pConcurrent && config.p2pDedicate ==>
        1 <= index && forall i | 1 <= i < config.vifMax && !HasIndex(vifs, i) :: i <= index
      ensures !found <==> Excluded(t) || forall i | InRange(config, t, i) :: HasIndex(vifs, i)
    {
      if t.Unsupported? {
        return false, 0;
      }
      if ibssIfActive || (t.Adhoc? && numVif != 0) {
        return false, 0;
      }
      if config.p2pConcurrent && config.p2pDedicate {
        if config.p2pConcurrentAp && t.Ap? {
          found, index := SearchUp(0, config.maxNormIface);
          return;
        }
        if t.Station? || t.Ap? || t.Adhoc? {
          found, index := SearchDown(1, config.vifMax);
          return;
        }
        found, index := SearchDown(config.maxNormIface, config.vifMax);
      } else {
        if t.Station? || t.Ap? || t.Adhoc? {
          found, index := SearchUp(0, config.vifMax);
          return;
        }
        found, index := SearchUp(config.maxNormIface, config.vifMax);
      }
    }

    /**
     * When a search finds an index: the type is supported, no ad hoc interface is live or would join
     * counted ones, and an index is free among all of them, from the P2P range for P2P types; on a
     * dedicated device from 1 on, or for an access point of its own below the P2P range.
     */
    lemma FoundWhen(t: IfType)
      requires Valid()
      ensures Excluded(t) || (forall i | InRange(config, t, i) :: HasIndex(vifs, i)) <==>
        || t.Unsupported? || ibssIfActive || (t.Adhoc? && numVif != 0)
        || forall i |
             (if t.P2pClient? || t.P2pGo? then config.maxNormIface <= i < config.vifMax
              else if !(config.p2pConcurrent && config.p2pDedicate) then 0 <= i < config.vifMax
              else if t.Ap? && config.p2pConcurrentAp then 0 <= i < config.maxNormIface
              else 1 <= i < config.vifMax) :: HasIndex(vifs, i)
    {
    }

    /** Make an interface; registration may fail, and then nothing has changed. */
    method InterfaceAdd(index: nat, t: IfType, registers: bool) returns (ok: bool)
      requires index < 8
      modifies this`availIdxMap, this`ibssIfActive, this`vifs
      ensures ok == registers
      ensures vifs == if ok then old(vifs) + [Vif(index, t)] else old(vifs)
      ensures availIdxMap == if ok then ClearBit(old(availIdxMap), index) else old(availIdxMap)
      ensures ibssIfActive == (old(ibssIfActive) || (ok && t.Adhoc?))
    {
      if !registers {
        return false;
      }
      availIdxMap := ClearBit(availIdxMap, index);
      if t.Adhoc? {
        ibssIfActive := true;
      }
      vifs := vifs + [Vif(index, t)];
      return true;
    }

    /** Add an interface on request. A refused or failed request changes nothing. */
    method AddIface(t: IfType, registers: bool) returns (added: Option<Vif>)
      requires Valid()
      modifies this`availIdxMap, this`ibssIfActive, this`vifs, this`numVif
      ensures Valid()
      ensures added.Some? ==>
        vifs == old(vifs) + [added.value] && added.value.ifType == t && InRange(config, t, added.value.index)
        && !HasIndex(old(vifs), added.value.index)
      ensures added.None? ==>
        vifs == old(vifs) && numVif == old(numVif) && availIdxMap == old(availIdxMap) && ibssIfActive == old(ibssIfActive)
      ensures old(HasAdhoc(vifs)) || (t.Adhoc? && old(numVif) != 0) ==> added.None?
      ensures added.None? <==>
        !registers || old(numVif) == config.vifMax || old(Excluded(t)) || forall i | InRange(config, t, i) :: HasIndex(old(vifs), i)
    {
      if numVif == config.vifMax {
        return None;
      }
      var found, index := IsValidIftype(t);
      if !found {
        return None;
      }
      var ok := AddAt(index, t, registers);
      added := if ok then Some(Vif(index, t)) else None;
    }

    /** Make an interface at an index that was found, and count it. */
    method AddAt(index: nat, t: IfType, registers: bool) returns (ok: bool)
      requires Valid() && InRange(config, t, index) && !HasIndex(vifs, index) && !ibssIfActive
      modifies this`availIdxMap, this`ibssIfActive, this`vifs, this`numVif
      ensures Valid() && ok == registers
      ensures vifs == if ok then old(vifs) + [Vif(index, t)] else old(vifs)
      ensures numVif == if ok then (old(numVif) + 1) % 256 else old(numVif)
      ensures !ok ==> availIdxMap == old(availIdxMap) && ibssIfActive == old(ibssIfActive)
    {
      ConsistentAdd(config, vifs, availIdxMap, Vif(index, t));
      ok := InterfaceAdd(index, t, registers);
      if ok {
        numVif := (numVif + 1) % 256;
      }
    }

    /** Remove the k-th live interface: its index becomes free again. */
    method DelIface(k: nat)
      requires Valid() && k < |vifs|
      modifies this`availIdxMap, this`ibssIfActive, this`vifs, this`numVif
      ensures Valid() && vifs == old(vifs)[..k] + old(vifs)[k + 1..]
      ensures ibssIfActive == (old(ibssIfActive) && !old(vifs)[k].ifType.Adhoc?)
    {
      var gone := vifs[k];
      availIdxMap := SetBit(availIdxMap, gone.index);
      if gone.ifType.Adhoc? {
        ibssIfActive := false;
      }
      vifs := vifs[..k] + vifs[k + 1..];
      numVif := (numVif + 255) % 256;
      ConsistentUnlink(config, old(vifs), old(availIdxMap), old(ibssIfActive), k);
    }

    /** There are never more live interfaces than the maximum. */
    lemma AtMostMax()
      requires Valid()
      ensures |vifs| <= config.vifMax
    {
      DistinctBounded(seq(|vifs|, k requires 0 <= k < |vifs| reads this => vifs[k].index), config.vifMax);
    }

    /**
     * The counter equals the number of live interfaces exactly when no interface went uncounted;
     * from the driver's own start it never does, and its limit is never reached.
     */
    lemma CounterMeaning()
      requires Valid()
      ensures numVif == |vifs| <==> uncounted == 0
      ensures uncounted == 1 ==> numVif != config.vifMax
    {
      AtMostMax();
    }
  }

  lemma MapAfterAdd(free: nat, vifs: seq<Vif>, v: Vif, max: nat)
    requires Complement(free, vifs, max)
    ensures ClearBit(free, v.index) <= free && Complement(ClearBit(free, v.index), vifs + [v], max)
  {
    ClearBitBound(free, v.index);
    forall i | 0 <= i < max
      ensures Bit(ClearBit(free, v.index), i) <==> !HasIndex(vifs + [v], i)
    {
      ClearBitBits(free, v.index, i);
      HasIndexSnoc(vifs, v, i);
    }
  }

  lemma MapAfterDelete(c: Config, free: nat, vifs: seq<Vif>, k: nat)
    requires Complement(free, vifs, c.vifMax) && k < |vifs| && free < 256 && c.vifMax <= 8 && InPlace(c, vifs)
    ensures SetBit(free, vifs[k].index) < 256
    ensures Complement(SetBit(free, vifs[k].index), vifs[..k] + vifs[k + 1..], c.vifMax)
  {
    SetBitByte(free, vifs[k].index);
    forall i | 0 <= i < c.vifMax
      ensures Bit(SetBit(free, vifs[k].index), i) <==> !HasIndex(vifs[..k] + vifs[k + 1..], i)
    {
      SetBitBits(free, vifs[k].index, i);
      HasIndexUnlink(vifs, k, i);
    }
  }

  lemma HasIndexSnoc(vifs: seq<Vif>, v: Vif, i: nat)
    ensures HasIndex(vifs + [v], i) <==> HasIndex(vifs, i) || v.index == i
  {
    var all := vifs + [v];
    if HasIndex(vifs, i) {
      var k :| 0 <= k < |vifs| && vifs[k].index == i;
      assert all[k].index == i;
    }
    if v.index == i {
      assert all[|vifs|].index == i;
    }
  }

  lemma HasIndexUnlink(vifs: seq<Vif>, k: nat, i: nat)
    requires k < |vifs| && forall j, l | 0 <= j < l < |vifs| :: vifs[j].index != vifs[l].index
    ensures HasIndex(vifs[..k] + vifs[k + 1..], i) <==> HasIndex(vifs, i) && vifs[k].index != i
  {
    var rest := vifs[..k] + vifs[k + 1..];
    if HasIndex(vifs, i) && vifs[k].index != i {
      var j :| 0 <= j < |vifs| && vifs[j].index == i;
      assert rest[if j < k then j else j - 1].index == i;
    }
    if HasIndex(rest, i) {
      var j :| 0 <= j < |rest| && rest[j].index == i;
      assert vifs[if j < k then j else j + 1].index == i;
    }
  }

  lemma {:induction false} DistinctBounded(s: seq<nat>, n: nat)
    requires forall i | 0 <= i < |s| :: s[i] < n
    requires forall i, j | 0 <= i < j < |s| :: s[i] != s[j]
    ensures |s| <= n
    decreases n
  {
    if s != [] {
      assert 0 <= s[0] < n;
      if n - 1 in s {
        var k :| 0 <= k < |s| && s[k] == n - 1;
        DistinctBounded(s[..k] + s[k + 1..], n - 1);
      } else {
        DistinctBounded(s, n - 1);
      }
    }
  }
}

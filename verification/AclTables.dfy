/**
 * Access control on an access point: the driver's slot table and its mirror in the firmware, and
 * the second table kept by the ioctl interface.
 */
module AclTables {
  import opened Words
  import opened Bits

  const SLOTS := 10
  const ZERO_MAC: Mac := [0, 0, 0, 0, 0, 0]

  type Table = t: seq<Option<Mac>> | |t| == SLOTS witness seq(SLOTS, _ => None)

  datatype Mode = Disable | Allow | Deny

  /** The policies nl80211 knows, and any other value. */
  datatype NlPolicy = AcceptUnlessListed | DenyUnlessListed | Unknown

  // ----- slot tables -----

  function Empty(): Table
  {
    seq(SLOTS, _ => None)
  }

  /** The first slot holding the entry e (an address, or nothing), or the length if there is none. */
  function Find(t: seq<Option<Mac>>, e: Option<Mac>): (i: nat)
    ensures i <= |t| && e !in t[..i]
    ensures i < |t| ==> t[i] == e
  {
    if t == [] || t[0] == e then 0 else 1 + Find(t[1..], e)
  }

  /** A slot holding the entry bounds where the search stops. */
  lemma {:induction false} FindLe(t: seq<Option<Mac>>, e: Option<Mac>, k: nat)
    requires k < |t| && t[k] == e
    ensures Find(t, e) <= k
  {
    if k > 0 && t[0] != e {
      FindLe(t[1..], e, k - 1);
    }
  }

  /** Add: present addresses stay, new ones take the first free slot, and a full table ignores them. */
  function Add(t: Table, m: Mac): Table
  {
    if Find(t, Some(m)) < SLOTS || Find(t, None) == SLOTS then t else t[Find(t, None) := Some(m)]
  }

  function Remove(t: Table, m: Mac): Table
  {
    if Find(t, Some(m)) == SLOTS then t else t[Find(t, Some(m)) := None]
  }

  function AddAll(t: Table, macs: seq<Mac>): Table
    decreases |macs|
  {
    if macs == [] then t else AddAll(Add(t, macs[0]), macs[1..])
  }

  predicate NoDuplicates(t: Table)
  {
    forall i, j | 0 <= i < j < SLOTS :: t[i] == t[j] ==> t[i].None?
  }

  function Addresses(t: Table): set<Mac>
  {
    set i | 0 <= i < SLOTS && t[i].Some? :: t[i].value
  }

  lemma FoundInTable(t: Table, m: Mac)
    ensures Find(t, Some(m)) < SLOTS <==> m in Addresses(t)
  {
    if m in Addresses(t) {
      var i :| 0 <= i < SLOTS && t[i].Some? && t[i].value == m;
      FindLe(t, Some(m), i);
    }
  }

  lemma AddKeepsUnique(t: Table, m: Mac)
    requires NoDuplicates(t)
    ensures NoDuplicates(Add(t, m)) && NoDuplicates(Remove(t, m))
  {
    FoundInTable(t, m);
    if m !in Addresses(t) {
      assert forall i | 0 <= i < SLOTS && t[i].Some? :: t[i].value != m;
    }
  }

  lemma AddAddresses(t: Table, m: Mac)
    ensures Addresses(Add(t, m)) == if Find(t, None) == SLOTS then Addresses(t) else Addresses(t) + {m}
  {
    FoundInTable(t, m);
    var f := Find(t, None);
    var u := Add(t, m);
    if u != t {
      assert u[f] == Some(m);
      assert forall i | 0 <= i < SLOTS && i != f :: u[i] == t[i];
      assert forall a | a in Addresses(t) :: a in Addresses(u) by {
        forall a | a in Addresses(t)
          ensures a in Addresses(u)
        {
          var i :| 0 <= i < SLOTS && t[i].Some? && t[i].value == a;
          assert u[i] == t[i];
        }
      }
    }
  }

  /** Slots from k on are free. */
  predicate FreeFrom(t: Table, k: nat)
  {
    forall i | k <= i < SLOTS :: t[i].None?
  }

  /** Adding at most as many addresses as there are free slots adds them all. */
  lemma {:induction false} AddAllAddresses(t: Table, macs: seq<Mac>, k: nat)
    requires FreeFrom(t, k) && k + |macs| <= SLOTS && NoDuplicates(t)
    ensures Addresses(AddAll(t, macs)) == Addresses(t) + (set m | m in macs)
    ensures NoDuplicates(AddAll(t, macs))
    decreases |macs|
  {
    if macs == [] {
    } else {
      FindLe(t, None, k);
      AddAddresses(t, macs[0]);
      AddKeepsUnique(t, macs[0]);
      AddAllAddresses(Add(t, macs[0]), macs[1..], k + 1);
      assert (set m | m in macs) == {macs[0]} + (set m | m in macs[1..]);
    }
  }

  lemma {:induction false} AddAllSnoc(t: Table, macs: seq<Mac>, m: Mac)
    ensures AddAll(t, macs + [m]) == Add(AddAll(t, macs), m)
    decreases |macs|
  {
    if macs == [] {
      assert [m][1..] == [];
    } else {
      assert (macs + [m])[1..] == macs[1..] + [m];
      AddAllSnoc(Add(t, macs[0]), macs[1..], m);
    }
  }

  lemma AddAllNext(macs: seq<Mac>, i: nat)
    requires i < |macs|
    ensures AddAll(Empty(), macs[..i + 1]) == Add(AddAll(Empty(), macs[..i]), macs[i])
  {
    assert macs[..i + 1] == macs[..i] + [macs[i]];
    AddAllSnoc(Empty(), macs[..i], macs[i]);
  }

  /** Into an empty table, no more addresses than slots all go, once each. */
  lemma ListedInForce(listed: seq<Mac>)
    requires |listed| <= SLOTS
    ensures NoDuplicates(AddAll(Empty(), listed)) && Addresses(AddAll(Empty(), listed)) == set m | m in listed
  {
    AddAllAddresses(Empty(), listed, 0);
    assert Addresses(Empty()) == {};
  }

  /** The firmware list a table stands for: its used slots. */
  function Used(t: Table): map<nat, Mac>
  {
    map i: nat | i < SLOTS && t[i].Some? :: t[i].value
  }

  /** Its used slots below i. */
  function UsedBelow(t: Table, i: nat): map<nat, Mac>
    requires i <= SLOTS
  {
    map k: nat | k < i && t[k].Some? :: t[k].value
  }

  lemma UsedBelowStep(t: Table, i: nat)
    requires i < SLOTS
    ensures UsedBelow(t, i + 1) == if t[i].Some? then UsedBelow(t, i)[i := t[i].value] else UsedBelow(t, i)
  {
  }

  // ----- the driver's table and the firmware -----

  class ApAcl {
    var mode: Mode
    const used: array<bool>
    const mac: array<Mac>
    // The firmware behind the WMI commands.
    var fwMode: Mode
    var fwList: map<nat, Mac>

    ghost predicate Valid()
      reads this
    {
      used.Length == SLOTS && mac.Length == SLOTS && fwMode == mode
    }

    ghost function Table(): Table
      requires Valid()
      reads this, used, mac
    {
      seq(SLOTS, i requires 0 <= i < SLOTS && Valid() reads this, used, mac => if used[i] then Some(mac[i]) else None)
    }

    /** The firmware list is the table's used slots while the list is on, and empty while it is off. */
    ghost predicate Mirrored()
      requires Valid()
      reads this, used, mac
    {
      fwList == if mode.Disable? then map[] else Used(Table())
    }

    constructor ()
      ensures Valid() && Mirrored() && fresh(used) && fresh(mac)
      ensures Table() == Empty() && mode.Disable?
    {
      used := new bool[SLOTS](_ => false);
      mac := new Mac[SLOTS](_ => ZERO_MAC);
      mode, fwMode, fwList := Disable, Disable, map[];
    }

    /** Search the used slots for an address, noting the first slot not in use on the way. */
    method Search(addr: Mac) returns (i: nat, firstNotUsed: nat)
      requires Valid()
      ensures i == Find(Table(), Some(addr))
      ensures i == SLOTS ==> firstNotUsed == if Find(Table(), None) == SLOTS then 0xff else Find(Table(), None)
    {
      ghost var t := Table();
      i, firstNotUsed := 0, 0xff;
      while i < SLOTS
        invariant i <= SLOTS && Find(t, Some(addr)) >= i
        invariant firstNotUsed == 0xff ==> Find(t, None) >= i
        invariant firstNotUsed != 0xff ==> firstNotUsed == Find(t, None) < i
      {
        FindAt(t, Some(addr), i);
        if firstNotUsed == 0xff {
          FindAt(t, None, i);
        }
        if used[i] {
          if mac[i] == addr {
            return;
          }
        } else if firstNotUsed == 0xff {
          firstNotUsed := i;
        }
        i := i + 1;
      }
    }

    /** One address-list command to the firmware. */
    method FwMacList(index: nat, addr: Mac, remove: bool)
      modifies this`fwList
      ensures fwList == if remove then old(fwList) - {index} else old(fwList)[index := addr]
    {
      fwList := if remove then fwList - {index} else fwList[index := addr];
    }

    /** Add or remove one address, in the table and, while the list is on, in the firmware. */
    method ConfigMacList(addr: Mac, removed: bool)
      requires Valid()
      modifies this`fwList, used, mac
      ensures Valid() && Table() == if removed then Remove(old(Table()), addr) else Add(old(Table()), addr)
      ensures old(Mirrored()) ==> Mirrored()
    {
      ghost var t := Table();
      var i, firstNotUsed := Search(addr);
      var slot;
      if removed {
        slot := i;
        if i == SLOTS {
          return;
        }
        used[slot] := false;
      } else {
        slot := firstNotUsed;
        if i != SLOTS {
          return;
        }
        if firstNotUsed == 0xff {
          return;
        }
        used[slot] := true;
        mac[slot] := addr;
      }
      assert Table() == if removed then t[slot := None] else t[slot := Some(addr)];
      UsedUpdate(t, slot, if removed then None else Some(addr));
      if mode != Disable {
        FwMacList(slot, mac[slot], removed);
      }
    }

    /** Remove every address, whatever the table holds. */
    method ConfigMacListReset()
      requires Valid()
      modifies this`fwList, used, mac
      ensures Valid() && Table() == Empty()
      ensures old(Mirrored()) ==> Mirrored()
    {
      for i := 0 to SLOTS
        invariant Valid() && forall k | 0 <= k < i :: Table()[k].None?
        invariant old(Mirrored()) ==> Mirrored()
      {
        if used[i] {
          ghost var t := Table();
          FindFirst(t, i);
          ConfigMacList(mac[i], true);
        }
      }
    }

    /** Send every used slot to the firmware. */
    method SendAll()
      requires Valid()
      modifies this`fwList
      ensures Valid() && Table() == old(Table()) && fwList == old(fwList) + Used(Table())
    {
      ghost var t, before := Table(), fwList;
      for i := 0 to SLOTS
        invariant Valid() && Table() == t
        invariant fwList == before + UsedBelow(t, i)
      {
        UsedBelowStep(t, i);
        if used[i] {
          FwMacList(i, mac[i], false);
        }
      }
      assert UsedBelow(t, SLOTS) == Used(t);
    }

    /**
     * Set the mode and, if it is on, send every used slot again. The policy command may or may not
     * clear the firmware's list first.
     */
    method ConfigPolicy(mode': Mode, clears: bool)
      requires Valid()
      modifies this`mode, this`fwMode, this`fwList
      ensures Valid() && mode == mode' && Table() == old(Table())
      ensures fwList == (if clears then map[] else old(fwList)) + (if mode'.Disable? then map[] else Used(Table()))
      ensures old(Mirrored()) ==>
        (Mirrored() <==> !mode'.Disable? || clears || old(mode).Disable? || Table() == Empty())
    {
      ghost var t := Table();
      UsedEmpty(t);
      MirrorAfterPolicy(Used(t), fwList, mode, mode', clears);
      mode, fwMode := mode', mode';
      if clears {
        fwList := map[];
      }
      ghost var before := fwList;
      if mode != Disable {
        SendAll();
      }
    }

    /** Stop: clear the table, then switch the list off. */
    method Stop(clears: bool)
      requires Valid() && Mirrored()
      modifies this`mode, this`fwMode, this`fwList, used, mac
      ensures Valid() && Mirrored() && mode.Disable? && Table() == Empty()
    {
      ConfigMacListReset();
      ConfigPolicy(Disable, clears);
    }

    /** The list mode a configuration asks for. */
    function WantedMode(count: nat, policy: NlPolicy): Mode
    {
      if count == 0 then Disable
      else if policy == AcceptUnlessListed then Allow
      else if policy == DenyUnlessListed then Deny
      else Disable
    }

    /** A configuration from user space: exactly the first ten listed addresses are in force afterwards. */
    method AclConfig(entries: seq<Mac>, policy: NlPolicy, clears: bool, clearsAgain: bool)
      requires Valid() && Mirrored()
      modifies this`mode, this`fwMode, this`fwList, used, mac
      ensures Valid() && Mirrored() && fwMode == mode
      ensures mode == Allow <==> entries != [] && policy == AcceptUnlessListed
      ensures mode == Deny <==> entries != [] && policy == DenyUnlessListed
      ensures mode == Disable ==> fwList == map[]
      ensures var listed := if |entries| <= 10 then entries else entries[..10];
        Table() == AddAll(Empty(), listed) && NoDuplicates(Table()) &&
        Addresses(Table()) == set m | m in listed
    {
      ConfigMacListReset();
      ConfigPolicy(Disable, clears);
      var wanted := WantedMode(|entries|, policy);
      ConfigPolicy(wanted, clearsAgain);
      var i := 0;
      while i < |entries| && i < SLOTS
        invariant 0 <= i <= |entries| && i <= SLOTS
        invariant Valid() && Mirrored() && mode == wanted
        invariant Table() == AddAll(Empty(), entries[..i])
      {
        AddAllNext(entries, i);
        ConfigMacList(entries[i], false);
        i := i + 1;
      }
      ghost var listed := if |entries| <= SLOTS then entries else entries[..SLOTS];
      assert entries[..i] == listed;
      ListedInForce(listed);
    }
  }

  /** Looking one slot further. */
  lemma {:induction false} FindAt(t: seq<Option<Mac>>, e: Option<Mac>, i: nat)
    requires i < |t| && Find(t, e) >= i
    ensures Find(t, e) == i <==> t[i] == e
  {
    if t[i] == e {
      FindLe(t, e, i);
    }
  }

  /** With everything before it free, a used slot is the first to hold its address. */
  lemma FindFirst(t: Table, i: nat)
    requires i < SLOTS && t[i].Some? && forall k | 0 <= k < i :: t[k].None?
    ensures Find(t, t[i]) == i
  {
    FindLe(t, t[i], i);
  }

  lemma UsedUpdate(t: Table, i: nat, e: Option<Mac>)
    requires i < SLOTS
    ensures Used(t[i := e]) == if e.Some? then Used(t)[i := e.value] else Used(t) - {i}
  {
  }

  /** Which policy commands leave a mirrored firmware list mirrored. */
  lemma MirrorAfterPolicy(used: map<nat, Mac>, list: map<nat, Mac>, mode: Mode, mode': Mode, clears: bool)
    ensures list == (if mode.Disable? then map[] else used) ==>
      var list' := (if clears then map[] else list) + (if mode'.Disable? then map[] else used);
      (list' == (if mode'.Disable? then map[] else used)
       <==> !mode'.Disable? || clears || mode.Disable? || used == map[])
  {
  }

  lemma UsedEmpty(t: Table)
    ensures Used(t) == map[] <==> t == Empty()
  {
    if Used(t) == map[] {
      forall i: nat | i < SLOTS
        ensures t[i].None?
      {
        assert i !in Used(t);
      }
    }
  }

  // ----- the ioctl table -----

  /** What the ioctl table's address array holds: freed slots are zeroed. */
  function Contents(t: Table): (c: seq<Mac>)
    ensures |c| == SLOTS
  {
    seq(SLOTS, i requires 0 <= i < SLOTS => if t[i].Some? then t[i].value else ZERO_MAC)
  }

  /** The last slot holding an address, or -1. */
  function LastMatch(c: seq<Mac>, m: Mac): (i: int)
    ensures -1 <= i < |c|
    ensures i >= 0 ==> c[i] == m
    ensures forall k | i < k < |c| :: c[k] != m
  {
    if c == [] then -1
    else if c[|c| - 1] == m then |c| - 1
    else LastMatch(c[..|c| - 1], m)
  }

  function DbAdd(t: Table, m: Mac): Table
  {
    var last := LastMatch(Contents(t), m);
    if last >= 0 then t[last := Some(m)]
    else if Find(t, None) < SLOTS then t[Find(t, None) := Some(m)]
    else t
  }

  function DbDelete(t: Table, m: Mac): Table
  {
    var last := LastMatch(Contents(t), m);
    if last >= 0 then t[last := None] else t
  }

  function UsedMacs(t: seq<Option<Mac>>): seq<Mac>
  {
    if t == [] then [] else
    var before := UsedMacs(t[..|t| - 1]);
    match t[|t| - 1]
    case None => before
    case Some(m) => before + [m]
  }

  const EIO := 5
  const ENOMEM := 12

  class AclDb {
    var index: nat              // bitmap of used slots
    const mac: array<Mac>
    const wildcard: array<byte>
    var fwList: map<nat, Mac>   // the firmware behind the WMI commands

    ghost function Table(): Table
      requires mac.Length == SLOTS
      reads this, mac
    {
      seq(SLOTS, i requires 0 <= i < SLOTS && mac.Length == SLOTS reads this, mac => if Bit(index, i) then Some(mac[i]) else None)
    }

    /** Freed slots are zeroed, and the firmware holds the used slots. */
    ghost predicate Valid()
      reads this, mac
    {
      && mac.Length == SLOTS && wildcard.Length == SLOTS
      && mac[..] == Contents(Table()) && fwList == Used(Table())
    }

    constructor ()
      ensures Valid() && Table() == Empty() && fresh(mac) && fresh(wildcard)
    {
      index, fwList := 0, map[];
      mac := new Mac[SLOTS](_ => ZERO_MAC);
      wildcard := new byte[SLOTS](_ => 0);
      new;
      forall i | 0 <= i < SLOTS
        ensures !Bit(0, i)
      {
        ZeroBits(i);
      }
      assert Table() == Empty();
    }

    /** Compare two addresses, skipping the bytes a wildcard mask names. */
    static method MacCmpWild(a: Mac, b: Mac, wild: byte) returns (differs: bool)
      ensures differs <==> exists i | 0 <= i < 6 :: !Bit(wild, i) && a[i] != b[i]
    {
      for i := 0 to 6
        invariant forall k | 0 <= k < i :: Bit(wild, k) || a[k] == b[k]
      {
        if Bit(wild, i) {
          continue;
        }
        if a[i] != b[i] {
          return true;
        }
      }
      return false;
    }

    method FindLast(addr: Mac) returns (slot: int)
      requires mac.Length == SLOTS
      ensures slot == LastMatch(mac[..], addr)
    {
      slot := -1;
      for i := 0 to SLOTS
        invariant slot == LastMatch(mac[..i], addr)
      {
        var differs := MacCmpWild(mac[i], addr, 0);
        assert mac[..i + 1][..i] == mac[..i];
        forall k | 0 <= k < 6
          ensures !Bit(0, k)
        {
          ZeroBits(k);
        }
        assert differs <==> mac[i] != addr;
        if !differs {
          slot := i;
        }
      }
      assert mac[..SLOTS] == mac[..];
    }

    method FindUnused() returns (slot: int)
      requires mac.Length == SLOTS
      ensures slot == if Find(Table(), None) == SLOTS then -1 else Find(Table(), None)
    {
      ghost var t := Table();
      for i := 0 to SLOTS
        invariant Find(t, None) >= i
      {
        FindAt(t, None, i);
        if !Bit(index, i) {
          return i;
        }
      }
      return -1;
    }

    /** Send one address-list command and record slot i as holding an address, or as free. */
    method Update(i: nat, e: Option<Mac>)
      requires Valid() && i < SLOTS
      modifies this, mac, wildcard
      ensures Valid() && Table() == old(Table())[i := e]
    {
      ghost var t := Table();
      UsedUpdate(t, i, e);
      fwList := if e.Some? then fwList[i := e.value] else fwList - {i};
      mac[i] := if e.Some? then e.value else ZERO_MAC;
      forall k: nat
        ensures Bit(SetBit(index, i), k) <==> k == i || Bit(index, k)
        ensures Bit(ClearBit(index, i), k) <==> k != i && Bit(index, k)
      {
        SetBitBits(index, i, k);
        ClearBitBits(index, i, k);
      }
      index := if e.Some? then SetBit(index, i) else ClearBit(index, i);
      wildcard[i] := 0;
      assert Table() == t[i := e];
    }

    method AddMac(addr: Mac) returns (status: int)
      requires Valid()
      modifies this, mac, wildcard
      ensures Valid() && Table() == DbAdd(old(Table()), addr)
      ensures status == if LastMatch(Contents(old(Table())), addr) < 0 && Find(old(Table()), None) == SLOTS then -ENOMEM else EIO
    {
      var slot := FindLast(addr);
      if slot == -1 {
        slot := FindUnused();
      }
      if slot == -1 {
        return -ENOMEM;
      }
      Update(slot, Some(addr));
      return EIO;
    }

    method DeleteMac(addr: Mac) returns (status: int)
      requires Valid()
      modifies this, mac, wildcard
      ensures Valid() && Table() == DbDelete(old(Table()), addr) && status == EIO
    {
      var slot := FindLast(addr);
      if slot != -1 {
        Update(slot, None);
      }
      return EIO;
    }

    /**
     * List the used addresses in slot order, if a buffer of len bytes has room for the count and all
     * of them. Running out of room midway leaves the device semaphore held.
     */
    method GetMac(len: nat) returns (status: int, macs: seq<Mac>, held: bool)
      requires Valid()
      ensures held <==> 4 <= len < 4 + 6 * |UsedMacs(Table())|
      ensures status == EIO <==> len >= 4 + 6 * |UsedMacs(Table())|
      ensures status == EIO || status == -ENOMEM
      ensures macs <= UsedMacs(Table()) && (status == EIO ==> macs == UsedMacs(Table()))
    {
      macs := [];
      if len < 4 {
        return -ENOMEM, [], false;
      }
      ghost var t := Table();
      var left := len - 4;
      for i := 0 to SLOTS
        invariant macs == UsedMacs(t[..i]) && left == len - 4 - 6 * |macs| && left >= 0
      {
        assert t[..i + 1][..i] == t[..i];
        if Bit(index, i) {
          left := left - 6;
          if left < 0 {
            UsedMacsPrefix(t, i + 1);
            assert UsedMacs(t[..i + 1]) == macs + [mac[i]];
            return -ENOMEM, macs, true;
          }
          macs := macs + [mac[i]];
        }
      }
      assert t[..SLOTS] == t;
      return EIO, macs, false;
    }
  }

  lemma {:induction false} UsedMacsPrefix(t: seq<Option<Mac>>, i: nat)
    requires i <= |t|
    ensures UsedMacs(t[..i]) <= UsedMacs(t)
    decreases |t|
  {
    if i < |t| {
      UsedMacsPrefix(t[..|t| - 1], i);
      assert t[..|t| - 1][..i] == t[..i];
    } else {
      assert t[..i] == t;
    }
  }

  /** The list holds the address of every used slot, behind those of the used slots before it, and nothing else. */
  lemma {:induction false} UsedMacsInOrder(t: seq<Option<Mac>>, i: nat)
    requires i < |t| && t[i].Some?
    ensures |UsedMacs(t[..i])| < |UsedMacs(t)| && UsedMacs(t)[|UsedMacs(t[..i])|] == t[i].value
    decreases |t|
  {
    var before := t[..|t| - 1];
    if i < |t| - 1 {
      UsedMacsInOrder(before, i);
      assert before[..i] == t[..i];
    }
  }

  lemma {:induction false} UsedMacsOnly(t: seq<Option<Mac>>, k: nat) returns (i: nat)
    requires k < |UsedMacs(t)|
    ensures i < |t| && t[i] == Some(UsedMacs(t)[k]) && |UsedMacs(t[..i])| == k
    decreases |t|
  {
    var before := t[..|t| - 1];
    if k < |UsedMacs(before)| {
      i := UsedMacsOnly(before, k);
      assert before[..i] == t[..i];
    } else {
      i := |t| - 1;
    }
  }

  // ----- the two tables agree -----

  datatype Op = AddOp(m: Mac) | RemoveOp(m: Mac)

  function ApStep(t: Table, op: Op): Table
  {
    if op.AddOp? then Add(t, op.m) else Remove(t, op.m)
  }

  function DbStep(t: Table, op: Op): Table
  {
    if op.AddOp? then DbAdd(t, op.m) else DbDelete(t, op.m)
  }

  function ApRun(t: Table, ops: seq<Op>): Table
    decreases |ops|
  {
    if ops == [] then t else ApRun(ApStep(t, ops[0]), ops[1..])
  }

  function DbRun(t: Table, ops: seq<Op>): Table
    decreases |ops|
  {
    if ops == [] then t else DbRun(DbStep(t, ops[0]), ops[1..])
  }

  /** In a table without duplicates an address that is there is found at the same slot from either end. */
  lemma SameSlot(t: Table, m: Mac)
    requires NoDuplicates(t) && m != ZERO_MAC
    ensures LastMatch(Contents(t), m) == if Find(t, Some(m)) == SLOTS then -1 else Find(t, Some(m))
  {
    var f, l := Find(t, Some(m)), LastMatch(Contents(t), m);
    if l >= 0 {
      assert Contents(t)[l] == m && t[l] == Some(m);
      FindLe(t, Some(m), l);
    }
    if f < SLOTS {
      assert Contents(t)[f] == m;
    }
  }

  predicate AtMostOneFree(t: Table)
  {
    forall i, j | 0 <= i < SLOTS && 0 <= j < SLOTS && t[i].None? && t[j].None? :: i == j
  }

  /**
   * Nothing zeroed misleads the ioctl search: the all-zero address is not involved, or it is in the
   * table with no free slot after it, or it is not there and is removed, or added with at most one
   * slot free.
   */
  predicate ZeroHarmless(t: Table, op: Op)
  {
    op.m != ZERO_MAC ||
    var z := Find(t, Some(ZERO_MAC));
    if z < SLOTS then forall i | z < i < SLOTS :: t[i].Some? else op.RemoveOp? || AtMostOneFree(t)
  }

  /** On a table without duplicates the two interfaces make the same step exactly then. */
  lemma SameStep(t: Table, op: Op)
    requires NoDuplicates(t)
    ensures ApStep(t, op) == DbStep(t, op) <==> ZeroHarmless(t, op)
  {
    if op.m != ZERO_MAC {
      SameSlot(t, op.m);
      if op.AddOp? && Find(t, Some(op.m)) < SLOTS {
        assert t[Find(t, Some(op.m)) := Some(op.m)] == t;
      }
    } else if Find(t, Some(ZERO_MAC)) < SLOTS {
      ZeroStored(t, op);
    } else {
      ZeroAbsent(t, op);
    }
  }

  /** The all-zero address is in the table. */
  lemma ZeroStored(t: Table, op: Op)
    requires NoDuplicates(t) && op.m == ZERO_MAC && Find(t, Some(ZERO_MAC)) < SLOTS
    ensures ApStep(t, op) == DbStep(t, op) <==> ZeroHarmless(t, op)
  {
    var c, z, l := Contents(t), Find(t, Some(ZERO_MAC)), LastMatch(Contents(t), ZERO_MAC);
    assert c[z] == ZERO_MAC;
    assert forall i | 0 <= i < SLOTS :: c[i] == ZERO_MAC <==> t[i].None? || i == z;
    if l == z {
      assert t[l := Some(ZERO_MAC)] == t;
      assert forall i | z < i < SLOTS :: c[i] != ZERO_MAC;
    } else {
      assert z < l && t[l].None?;
      assert t[l := None] == t && t[l := Some(ZERO_MAC)][l] != t[l];
      assert t[z := None][z] != t[z];
    }
  }

  /** It is not; only free slots look like it. */
  lemma ZeroAbsent(t: Table, op: Op)
    requires NoDuplicates(t) && op.m == ZERO_MAC && Find(t, Some(ZERO_MAC)) == SLOTS
    ensures ApStep(t, op) == DbStep(t, op) <==> (op.RemoveOp? || AtMostOneFree(t))
  {
    var c, f, l := Contents(t), Find(t, None), LastMatch(Contents(t), ZERO_MAC);
    FoundInTable(t, ZERO_MAC);
    assert forall i | 0 <= i < SLOTS :: c[i] == ZERO_MAC <==> t[i].None?;
    assert f < SLOTS ==> l >= 0;
    if l >= 0 {
      FindLe(t, None, l);
      assert t[l := None] == t;
      assert AtMostOneFree(t) <==> f == l by {
        if f == l {
          forall i | 0 <= i < SLOTS && t[i].None?
            ensures i == f
          {
            FindLe(t, None, i);
          }
        }
      }
      if f != l {
        assert t[f := Some(ZERO_MAC)][l] != t[l := Some(ZERO_MAC)][l];
      }
    }
  }

  /** Every step of a run is harmless. */
  predicate HarmlessRun(t: Table, ops: seq<Op>)
    decreases |ops|
  {
    ops == [] || (ZeroHarmless(t, ops[0]) && HarmlessRun(ApStep(t, ops[0]), ops[1..]))
  }

  /** The tables are equal after each step of a run. */
  predicate AgreeThroughout(t: Table, ops: seq<Op>)
  {
    forall k | 0 <= k <= |ops| :: ApRun(t, ops[..k]) == DbRun(t, ops[..k])
  }

  /** The first step of a prefix of a run. */
  lemma PrefixHead(t: Table, ops: seq<Op>, k: nat)
    requires 0 < k <= |ops|
    ensures ApRun(t, ops[..k]) == ApRun(ApStep(t, ops[0]), ops[1..][..k - 1])
    ensures DbRun(t, ops[..k]) == DbRun(DbStep(t, ops[0]), ops[1..][..k - 1])
  {
    assert ops[..k][1..] == ops[1..][..k - 1];
  }

  lemma AgreeFirst(t: Table, ops: seq<Op>)
    requires ops != []
    ensures AgreeThroughout(t, ops) <==>
      ApStep(t, ops[0]) == DbStep(t, ops[0]) && AgreeThroughout(ApStep(t, ops[0]), ops[1..])
  {
    var t', rest := ApStep(t, ops[0]), ops[1..];
    PrefixHead(t, ops, 1);
    assert rest[..0] == [] && ops[..0] == [];
    if AgreeThroughout(t, ops) {
      assert ApRun(t, ops[..1]) == DbRun(t, ops[..1]);
      forall k | 0 <= k <= |rest|
        ensures ApRun(t', rest[..k]) == DbRun(t', rest[..k])
      {
        PrefixHead(t, ops, k + 1);
        assert ApRun(t, ops[..k + 1]) == DbRun(t, ops[..k + 1]);
      }
    }
    if t' == DbStep(t, ops[0]) && AgreeThroughout(t', rest) {
      forall k | 0 <= k <= |ops|
        ensures ApRun(t, ops[..k]) == DbRun(t, ops[..k])
      {
        if k > 0 {
          PrefixHead(t, ops, k);
          assert ApRun(t', rest[..k - 1]) == DbRun(t', rest[..k - 1]);
        }
      }
    }
  }

  /** Over every run from a table without duplicates the two tables stay equal exactly when every step is harmless. */
  lemma {:induction false} RunsAgree(t: Table, ops: seq<Op>)
    requires NoDuplicates(t)
    ensures AgreeThroughout(t, ops) <==> HarmlessRun(t, ops)
    ensures NoDuplicates(ApRun(t, ops))
    decreases |ops|
  {
    if ops == [] {
      assert ops[..0] == [];
    } else {
      AgreeFirst(t, ops);
      SameStep(t, ops[0]);
      AddKeepsUnique(t, ops[0].m);
      RunsAgree(ApStep(t, ops[0]), ops[1..]);
    }
  }

  /** Each address once, and the all-zero address never. */
  predicate Clean(t: Table)
  {
    NoDuplicates(t) && forall i | 0 <= i < SLOTS :: t[i] != Some(ZERO_MAC)
  }

  /** After any run of adds and removes of non-zero addresses the tables agree slot by slot, without duplicates. */
  lemma {:induction false} TablesAgree(t: Table, ops: seq<Op>)
    requires NoDuplicates(t) && forall op | op in ops :: op.m != ZERO_MAC
    ensures ApRun(t, ops) == DbRun(t, ops) && NoDuplicates(ApRun(t, ops))
    ensures Clean(t) ==> Clean(ApRun(t, ops))
    decreases |ops|
  {
    if ops != [] {
      SameStep(t, ops[0]);
      AddKeepsUnique(t, ops[0].m);
      TablesAgree(ApStep(t, ops[0]), ops[1..]);
    }
  }

  /** Ten addresses, none of them zero. */
  function TenAddresses(): Table
  {
    seq(SLOTS, i requires 0 <= i < SLOTS => Some([1, 0, 0, 0, 0, i]))
  }

  lemma TenAddressesClean()
    ensures Clean(TenAddresses()) && Find(TenAddresses(), None) == SLOTS
  {
    var t := TenAddresses();
    assert forall i | 0 <= i < SLOTS :: t[i].value[5] == i && t[i].value[0] == 1;
  }

  /** Replacing the first address of a full table by the all-zero one and removing a later one: the tables agree. */
  lemma ZeroReached(t: Table, k: nat, a: Mac, b: Mac)
    requires Clean(t) && Find(t, None) == SLOTS && 0 < k < SLOTS && t[0] == Some(a) && t[k] == Some(b)
    ensures var ops := [RemoveOp(a), AddOp(ZERO_MAC), RemoveOp(b)];
            ApRun(t, ops) == DbRun(t, ops) == t[0 := Some(ZERO_MAC)][k := None]
  {
    var t1, t2 := t[0 := None], t[0 := Some(ZERO_MAC)];
    SameStep(t, RemoveOp(a));
    FoundInTable(t1, ZERO_MAC);
    OnlyFree(t, 0);
    SameStep(t1, AddOp(ZERO_MAC));
    assert t1[0 := Some(ZERO_MAC)] == t2;
    FindLe(t2, Some(b), k);
    SameStep(t2, RemoveOp(b));
    ThreeSteps(t, RemoveOp(a), AddOp(ZERO_MAC), RemoveOp(b));
  }

  lemma FreeFound(t: Table, i: nat)
    requires i < SLOTS
    ensures t[i].None? ==> Find(t, None) < SLOTS
  {
    if t[i].None? {
      FindLe(t, None, i);
    }
  }

  lemma OnlyFree(t: Table, k: nat)
    requires Find(t, None) == SLOTS && k < SLOTS
    ensures AtMostOneFree(t[k := None])
  {
    forall i | 0 <= i < SLOTS
      ensures t[i].Some?
    {
      FreeFound(t, i);
    }
  }

  lemma ThreeSteps(t: Table, x: Op, y: Op, z: Op)
    ensures ApRun(t, [x, y, z]) == ApStep(ApStep(ApStep(t, x), y), z)
    ensures DbRun(t, [x, y, z]) == DbStep(DbStep(DbStep(t, x), y), z)
  {
    TwoSteps(ApStep(t, x), y, z);
    TwoSteps(DbStep(t, x), y, z);
    assert [x, y, z][1..] == [y, z];
  }

  lemma TwoSteps(t: Table, y: Op, z: Op)
    ensures ApRun(t, [y, z]) == ApStep(ApStep(t, y), z) && DbRun(t, [y, z]) == DbStep(DbStep(t, y), z)
  {
    assert [y, z][1..] == [z] && [z][1..] == [];
    assert ApRun(ApStep(t, y), [z]) == ApStep(ApStep(t, y), z);
    assert DbRun(DbStep(t, y), [z]) == DbStep(DbStep(t, y), z);
  }

  /**
   * From any full table of non-zero addresses, after such a run one slot is free, and then both
   * removing and adding the all-zero address set the tables apart.
   */
  lemma ZeroDiverges(t: Table, k: nat, a: Mac, b: Mac)
    requires Clean(t) && Find(t, None) == SLOTS && 0 < k < SLOTS && t[0] == Some(a) && t[k] == Some(b)
    ensures var u := ApRun(t, [RemoveOp(a), AddOp(ZERO_MAC), RemoveOp(b)]);
            && AtMostOneFree(u) && NoDuplicates(u)
            && ApStep(u, RemoveOp(ZERO_MAC)) != DbStep(u, RemoveOp(ZERO_MAC))
            && ApStep(u, AddOp(ZERO_MAC)) != DbStep(u, AddOp(ZERO_MAC))
  {
    ZeroReached(t, k, a, b);
    var u := t[0 := Some(ZERO_MAC)][k := None];
    OnlyFree(t, k);
    assert u == t[k := None][0 := Some(ZERO_MAC)];
    assert u[0] == Some(ZERO_MAC) && u[k].None?;
    SameStep(u, RemoveOp(ZERO_MAC));
    SameStep(u, AddOp(ZERO_MAC));
  }
}

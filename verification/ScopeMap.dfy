/** The Robin Hood hash map of a scope, on the arrays and 32-bit arithmetic of the compiler. */
module ScopeMaps {
  import opened Bits
  import opened ScopeTable
  import PowerOfTwo
  import opened Sets

  const INLINE_CAP: nat := 16
  const MAX_CAP: nat := 0x8000_0000

  /** What a lookup reports: the bound value, or null. */
  function Lookup(m: Bindings, key: InternedString): Entity? {
    if key in m then m[key] else null
  }

  /** Three quarters of the capacity, rounded up. */
  function MaxLoad(cap: nat): nat { cap - cap / 4 }

  /** `hash & mask`: the slot a hash selects. */
  method MaskedHome(hash: nat, mask: nat, ghost shift: nat) returns (pos: nat)
    requires mask + 1 == Pow2(shift)
    ensures pos == Home(hash, mask + 1)
  {
    AndOnes(hash, shift);
    pos := BitAnd(hash, mask);
  }

  /** `(pos + 1) & mask`: one step around the ring. */
  method MaskedNext(pos: nat, mask: nat, ghost shift: nat) returns (next: nat)
    requires shift <= 31 && mask + 1 == Pow2(shift) && pos <= mask
    ensures next == Next(pos, mask + 1)
  {
    CapInRange(shift);
    WrapThenMask(pos + 1, shift);
    RingStep(pos, mask + 1);
    next := BitAnd((pos + 1) % TWO32, mask);
  }

  /** `(pos - hash) & mask`, with the difference wrapping around at 2^32: how far the entry
      in slot pos is from its home. */
  method MaskedDistance(pos: nat, hash: nat, mask: nat, ghost shift: nat, ghost t: Table) returns (dist: nat)
    requires shift <= 31 && mask + 1 == Pow2(shift) == |t| && pos <= mask
    requires t[pos].hash == hash
    ensures dist == ProbeDistance(t, pos)
  {
    CapInRange(shift);
    WrapThenMask(pos - hash, shift);
    RingDifference(pos, hash, mask + 1);
    dist := BitAnd((pos - hash) % TWO32, mask);
  }

  lemma CapInRange(shift: nat)
    requires shift <= 31
    ensures Pow2(shift) <= MAX_CAP
  {
    Pow2Is32();
    Pow2Monotone(shift, 31);
  }

  lemma RingStep(pos: nat, cap: nat)
    requires pos < cap
    ensures (pos + 1) % cap == Next(pos, cap)
  {
    DivModUnique(pos + 1, cap, if pos + 1 == cap then 1 else 0, Next(pos, cap));
  }

  lemma RingDifference(pos: nat, hash: nat, cap: nat)
    requires pos < cap
    ensures (pos - hash) % cap == Distance(pos, Home(hash, cap), cap)
  {
    var q, h := hash / cap, hash % cap;
    assert hash == q * cap + h;
    if pos >= h {
      assert pos - hash == (-q) * cap + (pos - h);
      DivModUnique(pos - hash, cap, -q, pos - h);
    } else {
      assert pos - hash == (-q - 1) * cap + (pos + cap - h);
      DivModUnique(pos - hash, cap, -q - 1, pos + cap - h);
    }
  }

  datatype Slot = Slot(hash: nat, value: Entity?)

  const EMPTY_SLOT := Slot(0, null)

  /** The parallel arrays hold the table t. */
  ghost predicate Shows(t: Table, keys: array<InternedString>, slots: array<Slot>)
    reads keys, slots
  {
    && |t| == keys.Length == slots.Length
    && forall i: nat | i < |t| :: t[i] == Entry(keys[i], slots[i].hash, slots[i].value)
  }

  /** Writing a key, its hash and its value into one slot. */
  method Store(keys: array<InternedString>, slots: array<Slot>, pos: nat, c: Entry, ghost t: Table)
    requires Shows(t, keys, slots) && pos < |t|
    modifies keys, slots
    ensures Shows(t[pos := c], keys, slots)
  {
    keys[pos] := c.key;
    slots[pos] := Slot(c.hash, c.value);
  }

  /** Placing one entry of the old table into the new one, which has no equal key. */
  method InsertForRehash(keys: array<InternedString>, slots: array<Slot>, mask: nat,
                         key: InternedString, hash: nat, value: Entity?,
                         ghost t: Table, ghost m: Bindings, ghost shift: nat)
    returns (ghost t': Table)
    requires shift <= 31 && |t| == Pow2(shift) == mask + 1
    requires Shows(t, keys, slots) && Consistent(t, m) && |m| < |t|
    requires hash == key.Hash() && key !in m
    modifies keys, slots
    ensures |t'| == |t| && Shows(t', keys, slots) && Consistent(t', m[key := value])
  {
    var c := Entry(key, hash, value);
    ghost var p: SoundProbe := StartProbe(t, m, c);
    var pos := MaskedHome(hash, mask, shift);
    var dist: nat := 0;
    while true
      invariant Shows(p.t, keys, slots) && |p.t| == |t| && p.c == c && p.pos == pos && p.dist == dist
      invariant c.key !in p.m && p.m[c.key := c.value] == m[key := value]
      decreases Distance(p.hole, pos, |t|)
    {
      if slots[pos].hash == 0 {
        Place(p);
        Store(keys, slots, pos, c, p.t);
        return p.t[pos := c];
      }
      var existingDist := MaskedDistance(pos, slots[pos].hash, mask, shift, p.t);
      if dist > existingDist {
        var tmp := Entry(keys[pos], slots[pos].hash, slots[pos].value);
        Store(keys, slots, pos, c, p.t);
        p := Displace(p);
        c := tmp;
        dist := existingDist;
      }
      p := Advance(p);
      dist := dist + 1;
      pos := MaskedNext(pos, mask, shift);
    }
  }

  /** The probe loop of an insertion: update the entry of an equal key, or place a new one. */
  method InsertProbe(keys: array<InternedString>, slots: array<Slot>, mask: nat,
                     key: InternedString, hash: nat, value: Entity?,
                     ghost t: Table, ghost m: Bindings, ghost shift: nat)
    returns (old_: Entity?, added: bool, ghost t': Table)
    requires shift <= 31 && |t| == Pow2(shift) == mask + 1
    requires Shows(t, keys, slots) && Consistent(t, m) && |m| < |t|
    requires hash == key.Hash()
    modifies keys, slots
    ensures |t'| == |t| && Shows(t', keys, slots) && Consistent(t', m[key := value])
    ensures old_ == Lookup(m, key) && added == (key !in m)
  {
    var c := Entry(key, hash, value);
    ghost var p: SoundProbe := StartProbe(t, m, c);
    ghost var displaced := false;
    var pos := MaskedHome(hash, mask, shift);
    var dist: nat := 0;
    while true
      invariant Shows(p.t, keys, slots) && |p.t| == |t| && p.c == c && p.pos == pos && p.dist == dist
      invariant p.m[c.key := c.value] == m[key := value]
      invariant if displaced then key !in m && c.key !in p.m else p.m == m && c.key == key
      decreases Distance(p.hole, pos, |t|)
    {
      if slots[pos].hash == 0 {
        Place(p);
        Store(keys, slots, pos, c, p.t);
        return null, true, p.t[pos := c];
      }
      if slots[pos].hash == c.hash && keys[pos] == c.key {
        Overwrite(p);
        old_ := slots[pos].value;
        Store(keys, slots, pos, c, p.t);
        return old_, false, p.t[pos := c];
      }
      var existingDist := MaskedDistance(pos, slots[pos].hash, mask, shift, p.t);
      if dist > existingDist {
        var tmp := Entry(keys[pos], slots[pos].hash, slots[pos].value);
        Store(keys, slots, pos, c, p.t);
        p := Displace(p);
        displaced := true;
        c := tmp;
        dist := existingDist;
      }
      p := Advance(p);
      dist := dist + 1;
      pos := MaskedNext(pos, mask, shift);
    }
  }

  /** The probe loop of a lookup. */
  method GetProbe(keys: array<InternedString>, slots: array<Slot>, mask: nat, key: InternedString, hash: nat,
                  ghost t: Table, ghost m: Bindings, ghost shift: nat)
    returns (found: Entity?)
    requires shift <= 31 && |t| == Pow2(shift) == mask + 1
    requires Shows(t, keys, slots) && Consistent(t, m) && |m| < |t|
    requires hash == key.Hash()
    ensures found == Lookup(m, key)
  {
    ghost var c := Entry(key, hash, null);
    ghost var p: SoundProbe := StartProbe(t, m, c);
    var pos := MaskedHome(hash, mask, shift);
    var dist: nat := 0;
    while true
      invariant p.t == t && p.m == m && p.c == c && p.pos == pos && p.dist == dist
      decreases Distance(p.hole, pos, |t|)
    {
      var currHash := slots[pos].hash;
      if currHash == 0 {
        Absent(p);
        return null;
      }
      var existingDist := MaskedDistance(pos, currHash, mask, shift, t);
      if dist > existingDist {
        Absent(p);
        return null;
      }
      if currHash == hash && keys[pos] == key {
        return slots[pos].value;
      }
      p := Advance(p);
      dist := dist + 1;
      pos := MaskedNext(pos, mask, shift);
    }
  }

  /** The bindings of the first n slots of a table. */
  ghost predicate RepresentsPrefix(t: Table, n: nat, m: Bindings) {
    && (forall i: nat | i < n && Occupied(t, i) :: t[i].key in m && m[t[i].key] == t[i].value)
    && (forall key | key in m :: exists i: nat :: i < n && Occupied(t, i) && t[i].key == key)
  }

  lemma PrefixIsPart(t: Table, n: nat, m: Bindings, all: Bindings)
    requires Consistent(t, all) && RepresentsPrefix(t, n, m)
    ensures |m| <= |all|
    ensures Occupied(t, n) ==> t[n].key !in m
  {
    assert m.Keys <= all.Keys;
    SubsetSize(m.Keys, all.Keys);
  }

  lemma PrefixGrows(t: Table, n: nat, m: Bindings)
    requires n < |t| && RepresentsPrefix(t, n, m) && (Occupied(t, n) ==> t[n].key !in m)
    ensures RepresentsPrefix(t, n + 1, if Occupied(t, n) then m[t[n].key := t[n].value] else m)
  {
    var m' := if Occupied(t, n) then m[t[n].key := t[n].value] else m;
    forall key | key in m' ensures exists i: nat :: i < n + 1 && Occupied(t, i) && t[i].key == key {
      if key in m {
        var i: nat :| i < n && Occupied(t, i) && t[i].key == key;
        assert i < n + 1 && Occupied(t, i) && t[i].key == key;
      } else {
        assert n < n + 1 && Occupied(t, n) && t[n].key == key;
      }
    }
  }

  lemma PrefixIsAll(t: Table, m: Bindings, all: Bindings)
    requires Represents(t, all) && RepresentsPrefix(t, |t|, m)
    ensures m == all
  {
    forall key | key in all ensures key in m && m[key] == all[key] {
      assert HasKey(t, key);
    }
  }

  /** The table of a run of empty slots. */
  method Zero(keys: array<InternedString>, slots: array<Slot>) returns (ghost t: Table)
    requires keys.Length == slots.Length
    modifies slots
    ensures Shows(t, keys, slots) && Consistent(t, map[])
    ensures forall i: nat :: !Occupied(t, i)
  {
    forall i | 0 <= i < slots.Length {
      slots[i] := EMPTY_SLOT;
    }
    t := BlankTable(keys[..]);
  }

  ghost function BlankTable(keys: seq<InternedString>): (t: Table)
    ensures |t| == |keys| && forall i: nat | i < |t| :: t[i] == Entry(keys[i], 0, null)
    ensures Consistent(t, map[])
  {
    seq(|keys|, i requires 0 <= i < |keys| => Entry(keys[i], 0, null))
  }

  /** Placing every entry of one table into a blank one, slot by slot. */
  method Rehash(keys: array<InternedString>, slots: array<Slot>,
                newKeys: array<InternedString>, newSlots: array<Slot>, newMask: nat,
                ghost t: Table, ghost all: Bindings, ghost blank: Table, ghost shift: nat)
    returns (ghost t': Table)
    requires Shows(t, keys, slots) && Consistent(t, all) && |all| <= |t|
    requires shift <= 31 && |t| < |blank| == Pow2(shift) == newMask + 1
    requires Shows(blank, newKeys, newSlots) && Consistent(blank, map[])
    requires keys != newKeys && slots != newSlots
    modifies newKeys, newSlots
    ensures |t'| == |blank| && Shows(t', newKeys, newSlots) && Consistent(t', all)
  {
    t' := blank;
    ghost var m: Bindings := map[];
    for i := 0 to slots.Length
      invariant |t'| == |blank| && Shows(t', newKeys, newSlots) && Consistent(t', m)
      invariant RepresentsPrefix(t, i, m)
    {
      PrefixIsPart(t, i, m, all);
      PrefixGrows(t, i, m);
      if slots[i].hash != 0 {
        t' := InsertForRehash(newKeys, newSlots, newMask, keys[i], slots[i].hash, slots[i].value, t', m, shift);
        m := m[t[i].key := t[i].value];
      }
    }
    PrefixIsAll(t, m, all);
  }

  /** Fresh storage of the given capacity that holds the bindings of the old one. */
  method GrownCopy(keys: array<InternedString>, slots: array<Slot>, count: nat, newCap: nat,
                   ghost t: Table, ghost all: Bindings, ghost shift: nat)
    returns (newKeys: array<InternedString>, newSlots: array<Slot>, ghost t': Table)
    requires Shows(t, keys, slots) && Consistent(t, all) && count == |all| <= |t|
    requires shift <= 31 && |t| < newCap == Pow2(shift)
    ensures fresh(newKeys) && fresh(newSlots)
    ensures |t'| == newCap && Shows(t', newKeys, newSlots) && Consistent(t', all)
  {
    newKeys := new InternedString[newCap](_ => NO_KEY);
    newSlots := new Slot[newCap](_ => EMPTY_SLOT);
    t' := BlankTable(newKeys[..]);
    if count > 0 {
      t' := Rehash(keys, slots, newKeys, newSlots, newCap - 1, t, all, t', shift);
    } else {
      assert all == map[];
    }
  }

  class ScopeMap {
    const inlineKeys: array<InternedString>
    const inlineSlots: array<Slot>
    var keys: array?<InternedString>
    var slots: array?<Slot>
    var count: nat
    var cap: nat
    ghost var table: Table
    ghost var shift: nat
    /** The finite map the table stands for. */
    ghost var Contents: Bindings

    ghost function Repr(): set<object?>
      reads this
    {
      {this, inlineKeys, inlineSlots, keys, slots}
    }

    /** Before the first insertion the storage pointers are null and the inline storage is blank. */
    ghost predicate Unset()
      reads this, inlineSlots
    {
      && keys == null && slots == null && cap == 0 && count == 0 && Contents == map[]
      && inlineKeys.Length == inlineSlots.Length == INLINE_CAP
      && forall i | 0 <= i < inlineSlots.Length :: inlineSlots[i] == EMPTY_SLOT
    }

    /** The storage is a table of 2^shift slots that represents Contents. */
    ghost predicate Stored()
      reads this, keys, slots
    {
      && keys != null && slots != null && Shows(table, keys, slots)
      && shift <= 31 && |table| == Pow2(shift) == cap >= INLINE_CAP
      && Consistent(table, Contents) && count == |Contents| <= MaxLoad(cap)
    }

    ghost predicate Valid()
      reads Repr()
    {
      Unset() || Stored()
    }

    constructor ()
      ensures Unset() && fresh(Repr() - {null})
    {
      inlineKeys := new InternedString[INLINE_CAP](_ => NO_KEY);
      inlineSlots := new Slot[INLINE_CAP](_ => EMPTY_SLOT);
      keys, slots, count, cap, Contents := null, null, 0, 0, map[];
      table, shift := [], 0;
    }

    method Init()
      requires Unset()
      modifies this
      ensures Stored() && cap == 16 && Contents == old(Contents)
      ensures keys == inlineKeys && slots == inlineSlots
    {
      cap := INLINE_CAP;
      slots := inlineSlots;
      keys := inlineKeys;
      shift := 4;
      table := BlankTable(inlineKeys[..]);
      assert Pow2(4) == 16;
    }

    /** Doubling the capacity and placing every entry afresh keeps the map and the count. */
    method Grow()
      requires Stored() && cap < MAX_CAP
      modifies this
      ensures Stored() && cap == 2 * old(cap) && Contents == old(Contents) && count == old(count)
      ensures fresh(keys) && fresh(slots)
    {
      var newCap := cap * 2;
      ghost var newShift := GrownShift(shift);
      var newKeys, newSlots;
      ghost var t;
      newKeys, newSlots, t := GrownCopy(keys, slots, count, newCap, table, Contents, newShift);
      slots := newSlots;
      keys := newKeys;
      cap := newCap;
      shift := newShift;
      table := t;
    }

    /** The capacity that an insertion finds room in: 16 slots at first, and twice as many as before
        once three quarters of them are taken. */
    ghost function RoomyCap(): nat
      reads this
    {
      if slots == null then 16 else if 4 * count >= 3 * cap then 2 * cap else cap
    }

    /** What an insertion does first: storage for an unset map, more room for a full one. */
    method MakeRoom()
      requires Valid()
      requires count >= MaxLoad(cap) ==> cap < MAX_CAP
      modifies this
      ensures Stored() && 4 * count < 3 * cap
      ensures cap == old(RoomyCap())
      ensures Contents == old(Contents) && fresh(Repr() - old(Repr()))
    {
      if slots != null { LoadIsThreeQuarters(cap, shift); }
      if slots == null {
        Init();
      }
      if count >= MaxLoad(cap) {
        Grow();
      }
      LoadIsThreeQuarters(cap, shift);
    }

    /** The capacity in force before a reservation is considered. */
    function CurrentCap(): nat
      reads this
    {
      if slots == null then INLINE_CAP else cap
    }

    /** Reserving storage swaps in blank arrays without placing the old entries in them. The
        map survives exactly when nothing was there or the request, cut to 32 bits, asks for no
        more than the capacity in force or for more than the largest one. */
    method Reserve(capacity: int)
      requires Valid()
      modifies this
      ensures slots != null && count == old(count) && Contents == old(Contents)
      ensures var wanted := capacity % TWO32;
        if old(CurrentCap()) < wanted <= MAX_CAP then IsLeastPow2(wanted, cap) else cap == old(CurrentCap())
      ensures var wanted := capacity % TWO32;
        Valid() <==> count == 0 || wanted <= old(CurrentCap()) || wanted > MAX_CAP
    {
      if slots == null {
        Init();
      }
      var wanted := capacity % TWO32;
      var newCap;
      ghost var k;
      newCap, k := PowerOfTwo.NextPow2(wanted);
      if wanted > 0 {
        RoundedAgainst(wanted, k, shift);
      }
      if cap < newCap && newCap > INLINE_CAP {
        SwapInBlank(newCap, k);
      }
    }

    /** Blank storage of the given capacity replaces the old one. */
    method SwapInBlank(newCap: nat, ghost newShift: nat)
      requires Stored() && cap < newCap == Pow2(newShift) && newShift <= 31
      modifies this
      ensures slots != null && cap == newCap && count == old(count) && Contents == old(Contents)
      ensures Stored() <==> count == 0
    {
      keys := new InternedString[newCap](_ => NO_KEY);
      slots := new Slot[newCap](_ => EMPTY_SLOT);
      cap := newCap;
      table := BlankTable(keys[..]);
      shift := newShift;
      BlankRepresents(table, Contents);
    }

    /** A full table of the largest capacity holds more bindings than fewer insertions can make. */
    lemma RoomLeft(n: nat, bound: nat)
      requires Stored() && |Contents| <= n < bound <= MaxLoad(MAX_CAP)
      ensures count >= MaxLoad(cap) ==> cap < MAX_CAP
    {
      CapInRange(shift);
    }

    /** Binds key to value, and reports what was bound before. */
    method Insert(key: InternedString, hash: nat, value: Entity?) returns (previous: Entity?)
      requires Valid() && hash == key.Hash()
      requires count >= MaxLoad(cap) ==> cap < MAX_CAP
      modifies Repr()
      ensures Stored() && fresh(Repr() - old(Repr()))
      ensures Contents == old(Contents)[key := value]
      ensures previous == if key in old(Contents) then old(Contents)[key] else null
      ensures cap == old(RoomyCap()) && 4 * count <= 3 * cap
    {
      MakeRoom();
      LoadIsThreeQuarters(cap, shift);
      var added;
      ghost var t;
      previous, added, t := InsertProbe(keys, slots, cap - 1, key, hash, value, table, Contents, shift);
      if added {
        count := count + 1;
      }
      table := t;
      Contents := Contents[key := value];
    }

    /** The value bound to key, or null when there is none. */
    method Get(key: InternedString, hash: nat) returns (found: Entity?)
      requires Stored() && hash == key.Hash()
      ensures found == if key in Contents then Contents[key] else null
    {
      found := GetProbe(keys, slots, cap - 1, key, hash, table, Contents, shift);
    }

    method Clear()
      requires Valid()
      modifies this, slots
      ensures Valid() && Contents == map[] && slots == old(slots) && Repr() == old(Repr())
    {
      if slots != null {
        table := Zero(keys, slots);
      }
      count := 0;
      Contents := map[];
      assert slots != null ==> Stored();
    }
  }

  /** From 16 slots on the load limit is three quarters of the capacity, with nothing rounded. */
  lemma LoadIsThreeQuarters(cap: nat, shift: nat)
    requires cap == Pow2(shift) && cap >= 16
    ensures 4 * MaxLoad(cap) == 3 * cap
  {
    if shift < 4 {
      assert Pow2(3) == 8;
      Pow2Monotone(shift, 3);
    }
    Pow2Add(4, shift - 4);
    Quarters(cap, Pow2(shift - 4));
  }

  lemma Quarters(cap: nat, q: nat)
    requires cap == 16 * q
    ensures 4 * MaxLoad(cap) == 3 * cap
  {
    DivModUnique(cap, 4, 4 * q, 0);
  }

  /** r is the least power of two that is not below n. */
  ghost predicate IsLeastPow2(n: nat, r: nat) {
    && (exists k: nat :: r == Pow2(k))
    && n <= r && forall k: nat :: n <= Pow2(k) ==> r <= Pow2(k)
  }

  /** Rounding up compares with powers of two as the number itself does; in particular, a word no
      larger than 2^31 rounds up to at most 2^31. */
  lemma RoundedAgainst(n: nat, k: nat, shift: nat)
    requires 0 < n <= Pow2(k) && (k > 0 ==> Pow2(k - 1) < n)
    ensures k <= 31 <==> n <= MAX_CAP
    ensures Pow2(shift) < Pow2(k) <==> Pow2(shift) < n
    ensures IsLeastPow2(n, Pow2(k))
  {
    Pow2Is32();
    forall j: nat ensures Pow2(k) <= Pow2(j) <==> n <= Pow2(j) {
      if k <= j { Pow2Monotone(k, j); } else { Pow2Monotone(j, k - 1); }
    }
    assert Pow2(31) == MAX_CAP;
    if k > 31 { Pow2Monotone(31, k - 1); } else { Pow2Monotone(k, 31); }
  }

  /** Blank storage represents no map but the empty one. */
  lemma BlankRepresents(t: Table, m: Bindings)
    requires Represents(t, map[])
    ensures Represents(t, m) <==> |m| == 0
  {
    assert forall i: nat :: !Occupied(t, i);
    if m != map[] {
      var key :| key in m;
      assert !HasKey(t, key);
    }
  }

  lemma GrownShift(shift: nat) returns (grown: nat)
    requires Pow2(shift) < MAX_CAP
    ensures grown == shift + 1 <= 31 && Pow2(grown) == 2 * Pow2(shift)
  {
    grown := shift + 1;
    Pow2Is32();
    if shift >= 31 {
      Pow2Monotone(31, shift);
    }
  }
}

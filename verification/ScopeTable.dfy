/** The open-addressed table behind a scope, as a value: what one probe step of the
    Robin Hood algorithm needs to know, and what each step keeps. `ScopeMaps` runs
    these steps on arrays. */
module ScopeTable {
  import opened Bits

  class Entity { }

  /** The 32-bit FNV-1a hash of a byte string. */
  function Fnv32a(text: seq<nat>): (h: nat)
    ensures h < TWO32
  {
    if text == [] then 0x811c9dc5
    else (BitXor(Fnv32a(text[..|text| - 1]), text[|text| - 1]) * 0x01000193) % TWO32
  }

  /** Interning makes equality of identifiers equality of their texts. */
  datatype InternedString = InternedString(text: seq<nat>) {
    /** Zero marks an empty slot, so the hash of a key avoids it. */
    function Hash(): (h: nat)
      ensures 0 < h < TWO32
    {
      var res := Fnv32a(text) % 0x8000_0000;
      if res == 0 then 1 else res
    }
  }

  const NO_KEY := InternedString([])

  /** One place of the table: a key, the stored hash (0 when empty) and the value. */
  datatype Entry = Entry(key: InternedString, hash: nat, value: Entity?)

  type Table = seq<Entry>

  type Bindings = map<InternedString, Entity?>

  predicate Occupied(t: Table, i: nat) { i < |t| && t[i].hash != 0 }

  function Home(hash: nat, cap: nat): (h: nat)
    ensures cap > 0 ==> h < cap
  {
    if cap == 0 then 0 else hash % cap
  }

  function Next(pos: nat, cap: nat): nat {
    if pos + 1 == cap then 0 else pos + 1
  }

  function Prev(pos: nat, cap: nat): nat {
    if pos > 0 then pos - 1 else if cap > 0 then cap - 1 else 0
  }

  /** Steps from `from` forward to `pos` around a ring of `cap` slots. */
  function Distance(pos: nat, from: nat, cap: nat): nat {
    if pos >= from then pos - from
    else if from <= cap then pos + cap - from
    else 0
  }

  /** How far slot i is from the home of an entry. */
  function DistanceFor(t: Table, e: Entry, i: nat): nat {
    Distance(i, Home(e.hash, |t|), |t|)
  }

  /** How far the entry in slot i sits from the slot its hash selects. */
  function ProbeDistance(t: Table, i: nat): nat {
    if i < |t| then DistanceFor(t, t[i], i) else 0
  }

  /** An entry away from home follows an entry at most one step closer to its own. */
  ghost predicate Follows(t: Table, i: nat) {
    Occupied(t, i) && ProbeDistance(t, i) > 0 ==>
      Occupied(t, Prev(i, |t|)) && ProbeDistance(t, Prev(i, |t|)) >= ProbeDistance(t, i) - 1
  }

  ghost predicate RobinHood(t: Table) {
    forall i: nat :: Follows(t, i)
  }

  ghost predicate UniqueKeys(t: Table) {
    forall i: nat, j: nat | Occupied(t, i) && Occupied(t, j) && t[i].key == t[j].key :: i == j
  }

  ghost predicate Hashed(t: Table) {
    forall i: nat | Occupied(t, i) :: t[i].hash == t[i].key.Hash()
  }

  ghost predicate HasKey(t: Table, key: InternedString) {
    exists i: nat :: Occupied(t, i) && t[i].key == key
  }

  /** The occupied slots are exactly the bindings of m. */
  ghost predicate Represents(t: Table, m: Bindings) {
    && (forall i: nat | Occupied(t, i) :: t[i].key in m && m[t[i].key] == t[i].value)
    && (forall key {:trigger HasKey(t, key)} | key in m :: HasKey(t, key))
  }

  ghost predicate Consistent(t: Table, m: Bindings) {
    RobinHood(t) && UniqueKeys(t) && Hashed(t) && Represents(t, m)
  }

  /** A probe in progress: entry c has no slot yet, the search stands at pos, dist steps
      from c's home, and `hole` is some empty slot ahead. */
  datatype Probe = Probe(t: Table, m: Bindings, c: Entry, pos: nat, dist: nat, hole: nat) {

    /** The position agrees with the distance walked, and no gap has been passed. */
    ghost predicate Positioned() {
      && pos < |t| && hole < |t| && !Occupied(t, hole)
      && dist == DistanceFor(t, c, pos) <= DistanceFor(t, c, hole)
      && (dist > 0 ==> Occupied(t, Prev(pos, |t|)) && ProbeDistance(t, Prev(pos, |t|)) >= dist - 1)
    }

    /** A slot that already holds c's key has not been passed. */
    ghost predicate NotPassed() {
      forall j: nat | Occupied(t, j) && t[j].key == c.key :: DistanceFor(t, c, j) >= dist
    }

    ghost predicate Ok() {
      Consistent(t, m) && c.hash == c.key.Hash() && Positioned() && NotPassed()
    }
  }

  /** A probe whose search invariant holds. */
  type SoundProbe = p: Probe | p.Ok()
    ghost witness Probe([Entry(NO_KEY, 0, null)], map[], Entry(NO_KEY, NO_KEY.Hash(), null), 0, 0, 0)

  /** Between the home of the entry in slot j and slot j there is no gap, and nobody
      there is closer to home than a search for that entry would be. */
  lemma {:induction false} Chain(t: Table, j: nat, i: nat)
    requires RobinHood(t) && Occupied(t, j) && i < |t|
    requires DistanceFor(t, t[j], i) <= ProbeDistance(t, j)
    ensures Occupied(t, i) && ProbeDistance(t, i) >= DistanceFor(t, t[j], i)
    decreases ProbeDistance(t, j) - DistanceFor(t, t[j], i)
  {
    if i != j {
      StepAlongRing(i, Home(t[j].hash, |t|), j, |t|);
      Chain(t, j, Next(i, |t|));
      assert Follows(t, Next(i, |t|));
    }
  }

  /** One step forward is one step further from home, and nearer to whatever lies ahead. */
  lemma StepAlongRing(pos: nat, home: nat, goal: nat, cap: nat)
    requires pos < cap && home < cap && goal < cap && goal != pos
    requires Distance(pos, home, cap) <= Distance(goal, home, cap)
    ensures Next(pos, cap) < cap
    ensures Distance(Next(pos, cap), home, cap) == Distance(pos, home, cap) + 1 <= Distance(goal, home, cap)
    ensures Distance(goal, Next(pos, cap), cap) < Distance(goal, pos, cap)
    ensures Prev(Next(pos, cap), cap) == pos
  {
  }

  /** A search starts at the home slot with nothing passed. */
  lemma StartProbe(t: Table, m: Bindings, c: Entry) returns (p: SoundProbe)
    requires Consistent(t, m) && |m| < |t| && c.hash == c.key.Hash()
    ensures p.t == t && p.m == m && p.c == c && p.dist == 0 && p.pos == Home(c.hash, |t|)
  {
    var hole := HoleExists(t, m);
    var q := Probe(t, m, c, Home(c.hash, |t|), 0, hole);
    assert q.Ok();
    p := q;
  }

  /** An empty slot, or an entry closer to its home than the search is, proves the key absent. */
  lemma Absent(p: SoundProbe)
    requires !Occupied(p.t, p.pos) || p.dist > ProbeDistance(p.t, p.pos)
    ensures p.c.key !in p.m
  {
    if p.c.key in p.m {
      assert HasKey(p.t, p.c.key);
      var j: nat :| Occupied(p.t, j) && p.t[j].key == p.c.key;
      Chain(p.t, j, p.pos);
    }
  }

  /** Moving past a slot that holds another key and is not displaced. */
  lemma Advance(p: SoundProbe) returns (p': SoundProbe)
    requires Occupied(p.t, p.pos) && p.t[p.pos].key != p.c.key && p.dist <= ProbeDistance(p.t, p.pos)
    ensures p' == p.(pos := Next(p.pos, |p.t|), dist := p.dist + 1)
    ensures Distance(p.hole, p'.pos, |p.t|) < Distance(p.hole, p.pos, |p.t|)
  {
    var q := p.(pos := Next(p.pos, |p.t|), dist := p.dist + 1);
    var home := Home(p.c.hash, |p.t|);
    StepAlongRing(p.pos, home, p.hole, |p.t|);
    assert q.Positioned();
    forall j: nat | Occupied(p.t, j) && p.t[j].key == p.c.key ensures DistanceFor(p.t, p.c, j) >= p.dist + 1 {
      StepAlongRing(p.pos, home, j, |p.t|);
    }
    assert q.NotPassed();
    p' := q;
  }

  /** Displacement: c takes the slot of a luckier entry, which becomes the homeless one.
      The invariant holds of the new table and of the displaced entry. */
  lemma Displace(p: SoundProbe) returns (p': SoundProbe)
    requires Occupied(p.t, p.pos) && p.dist > ProbeDistance(p.t, p.pos)
    ensures p.c.key !in p.m
    ensures p'.t == p.t[p.pos := p.c] && p'.c == p.t[p.pos] && p'.pos == p.pos && p'.hole == p.hole
    ensures p'.dist == ProbeDistance(p.t, p.pos)
    ensures p'.c.key !in p'.m && p'.c.key != p.c.key && |p'.m| == |p.m|
    ensures p'.m[p'.c.key := p'.c.value] == p.m[p.c.key := p.c.value]
  {
    Absent(p);
    var m' := Exchange(p.m, p.t[p.pos], p.c);
    p' := DisplacedOk(p, m');
  }

  lemma DisplacedOk(p: SoundProbe, m': Bindings) returns (q: SoundProbe)
    requires Occupied(p.t, p.pos) && p.dist > ProbeDistance(p.t, p.pos) && p.c.key !in p.m
    requires m'.Keys == p.m.Keys - {p.t[p.pos].key} + {p.c.key}
    requires forall k | k in m' :: m'[k] == if k == p.c.key then p.c.value else p.m[k]
    ensures q == Probe(p.t[p.pos := p.c], m', p.t[p.pos], p.pos, ProbeDistance(p.t, p.pos), p.hole)
  {
    var q0 := Probe(p.t[p.pos := p.c], m', p.t[p.pos], p.pos, ProbeDistance(p.t, p.pos), p.hole);
    PutKeepsRobinHood(p.t, p.c, p.pos);
    PutRepresents(p.t, p.m, p.c, p.pos, m');
    DisplacedPositioned(p, q0);
    assert q0.Ok();
    q := q0;
  }

  lemma DisplacedPositioned(p: SoundProbe, q: Probe)
    requires Occupied(p.t, p.pos) && p.dist > ProbeDistance(p.t, p.pos) && p.c.key !in p.m
    requires q == Probe(p.t[p.pos := p.c], q.m, p.t[p.pos], p.pos, ProbeDistance(p.t, p.pos), p.hole)
    ensures q.Positioned() && q.NotPassed() && q.c.hash == q.c.key.Hash()
  {
    assert Follows(p.t, p.pos);
    if DistanceFor(p.t, q.c, p.hole) < q.dist {
      Chain(p.t, p.pos, p.hole);
    }
    forall j: nat | Occupied(q.t, j) ensures q.t[j].key != q.c.key {
      assert j != p.pos ==> Occupied(p.t, j);
    }
  }

  /** Taking one binding out of a map and another one in. */
  lemma Exchange(m: Bindings, out: Entry, c: Entry) returns (m': Bindings)
    requires out.key in m && m[out.key] == out.value && c.key !in m
    ensures m'.Keys == m.Keys - {out.key} + {c.key} && |m'| == |m|
    ensures forall k | k in m' :: m'[k] == if k == c.key then c.value else m[k]
    ensures m'[out.key := out.value] == m[c.key := c.value]
  {
    m' := (m - {out.key})[c.key := c.value];
    assert m'.Keys == m.Keys - {out.key} + {c.key};
    assert |m'.Keys| == |m.Keys|;
  }

  /** Filling slot pos with c: the table represents any map that drops what the slot held,
      gains c, and agrees elsewhere, provided no other slot holds c's key. */
  lemma PutRepresents(t: Table, m: Bindings, c: Entry, pos: nat, m': Bindings)
    requires Consistent(t, m) && pos < |t| && c.hash == c.key.Hash()
    requires forall i: nat | Occupied(t, i) && i != pos :: t[i].key != c.key
    requires m'.Keys == (if Occupied(t, pos) then m.Keys - {t[pos].key} else m.Keys) + {c.key}
    requires forall k | k in m' :: m'[k] == if k == c.key then c.value else m[k]
    ensures UniqueKeys(t[pos := c]) && Hashed(t[pos := c]) && Represents(t[pos := c], m')
  {
    var t' := t[pos := c];
    forall i: nat | Occupied(t', i)
      ensures t'[i].hash == t'[i].key.Hash()
      ensures t'[i].key in m' && m'[t'[i].key] == t'[i].value
      ensures forall j: nat | Occupied(t', j) && t'[i].key == t'[j].key :: i == j
    {
      assert i != pos ==> Occupied(t, i);
      assert forall j: nat | Occupied(t', j) && j != pos :: Occupied(t, j);
    }
    forall key | key in m' ensures HasKey(t', key) {
      PutHasKey(t, m, c, pos, key);
    }
  }

  lemma PutHasKey(t: Table, m: Bindings, c: Entry, pos: nat, key: InternedString)
    requires Represents(t, m) && pos < |t| && c.hash != 0
    requires key == c.key || (key in m && (Occupied(t, pos) ==> t[pos].key != key))
    ensures HasKey(t[pos := c], key)
  {
    var t' := t[pos := c];
    if key == c.key {
      assert Occupied(t', pos) && t'[pos].key == key;
    } else {
      assert HasKey(t, key);
      var i: nat :| Occupied(t, i) && t[i].key == key;
      assert Occupied(t', i) && t'[i].key == key;
    }
  }

  /** Filling an empty slot, or a slot whose entry is closer to home, or one with the same hash. */
  lemma PutKeepsRobinHood(t: Table, c: Entry, pos: nat)
    requires RobinHood(t) && pos < |t| && c.hash != 0
    requires var d := DistanceFor(t, c, pos);
      && (d > 0 ==> Occupied(t, Prev(pos, |t|)) && ProbeDistance(t, Prev(pos, |t|)) >= d - 1)
      && (Occupied(t, pos) ==> d >= ProbeDistance(t, pos))
    ensures RobinHood(t[pos := c])
  {
    var t' := t[pos := c];
    forall i: nat ensures Follows(t', i) {
      assert Follows(t, i);
    }
  }

  /** The search ends by filling an empty slot. */
  lemma Place(p: SoundProbe)
    requires !Occupied(p.t, p.pos)
    ensures p.c.key !in p.m
    ensures Consistent(p.t[p.pos := p.c], p.m[p.c.key := p.c.value])
  {
    Absent(p);
    PutKeepsRobinHood(p.t, p.c, p.pos);
    PutRepresents(p.t, p.m, p.c, p.pos, p.m[p.c.key := p.c.value]);
  }

  /** The search ends by overwriting the value bound to an equal key. */
  lemma Overwrite(p: SoundProbe)
    requires Occupied(p.t, p.pos) && p.t[p.pos].key == p.c.key
    ensures p.c.key in p.m && p.m[p.c.key] == p.t[p.pos].value
    ensures Consistent(p.t[p.pos := p.c], p.m[p.c.key := p.c.value])
  {
    PutRepresents(p.t, p.m, p.c, p.pos, p.m[p.c.key := p.c.value]);
    PutKeepsRobinHood(p.t, p.c, p.pos);
  }

  /** A table with fewer bindings than slots has an empty slot. */
  lemma HoleExists(t: Table, m: Bindings) returns (hole: nat)
    requires UniqueKeys(t) && Represents(t, m) && |m| < |t|
    ensures hole < |t| && !Occupied(t, hole)
  {
    if forall i: nat | i < |t| :: Occupied(t, i) {
      var keys := seq(|t|, i requires 0 <= i < |t| => t[i].key);
      forall i: nat | i < |t| ensures keys[i] in m.Keys {
        assert Occupied(t, i);
      }
      Pigeonhole(keys, m.Keys);
      assert false;
    } else {
      hole :| hole < |t| && !Occupied(t, hole);
    }
  }

  lemma {:induction false} Pigeonhole<T>(xs: seq<T>, s: set<T>)
    requires forall i: nat, j: nat | i < |xs| && j < |xs| && xs[i] == xs[j] :: i == j
    requires forall i: nat | i < |xs| :: xs[i] in s
    ensures |xs| <= |s|
  {
    if xs != [] {
      var last := |xs| - 1;
      Pigeonhole(xs[..last], s - {xs[last]});
    }
  }
}

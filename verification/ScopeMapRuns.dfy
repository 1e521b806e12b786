/** Whole runs of a scope map against the finite map they should build. */
module ScopeMapRuns {
  import opened ScopeTable
  import opened ScopeMaps

  datatype Op = Bind(key: InternedString, value: Entity?) | Wipe

  function Apply(m: Bindings, op: Op): Bindings {
    if op.Bind? then m[op.key := op.value] else map[]
  }

  /** The finite map that a run of operations describes. */
  function After(ops: seq<Op>): Bindings {
    if ops == [] then map[] else Apply(After(ops[..|ops| - 1]), ops[|ops| - 1])
  }

  /** Operation i gives key its final value: nothing later rebinds the key or clears the map. */
  ghost predicate LastBinding(ops: seq<Op>, key: InternedString, i: nat) {
    && i < |ops| && ops[i].Bind? && ops[i].key == key
    && forall j | i < j < |ops| :: ops[j].Bind? && ops[j].key != key
  }

  /** A key is bound after a run exactly when some insertion of it is final, and then to the
      value of that insertion. */
  lemma {:induction false} BoundByLast(ops: seq<Op>, key: InternedString)
    ensures key in After(ops) <==> exists i: nat :: LastBinding(ops, key, i)
    ensures forall i: nat | LastBinding(ops, key, i) :: key in After(ops) && After(ops)[key] == ops[i].value
  {
    if ops != [] {
      var last := |ops| - 1;
      var init := ops[..last];
      BoundByLast(init, key);
      if ops[last].Bind? && ops[last].key == key {
        assert LastBinding(ops, key, last);
      } else if ops[last].Bind? {
        assert forall i: nat | i < last :: LastBinding(ops, key, i) <==> LastBinding(init, key, i) by {
          assert forall j | 0 <= j < last :: ops[j] == init[j];
        }
      }
    }
  }

  lemma {:induction false} AtMostOnePerOp(ops: seq<Op>)
    ensures |After(ops)| <= |ops|
  {
    if ops != [] {
      var m := After(ops[..|ops| - 1]);
      AtMostOnePerOp(ops[..|ops| - 1]);
      if ops[|ops| - 1].Bind? {
        var key := ops[|ops| - 1].key;
        assert After(ops).Keys == m.Keys + {key};
      }
    }
  }

  function ReplyTo(m: Bindings, op: Op): Entity? {
    if op.Bind? then Lookup(m, op.key) else null
  }

  method Perform(scope: ScopeMap, op: Op) returns (reply: Entity?)
    requires scope.Stored() && (scope.count >= MaxLoad(scope.cap) ==> scope.cap < MAX_CAP)
    modifies scope.Repr()
    ensures scope.Stored() && fresh(scope.Repr() - old(scope.Repr()))
    ensures scope.Contents == Apply(old(scope.Contents), op)
    ensures reply == ReplyTo(old(scope.Contents), op)
  {
    match op {
      case Bind(key, value) =>
        reply := scope.Insert(key, key.Hash(), value);
      case Wipe =>
        scope.Clear();
        reply := null;
    }
  }

  /** Each reply given so far is the one the finite map calls for. */
  ghost predicate Replied(ops: seq<Op>, replies: seq<Entity?>) {
    |replies| <= |ops| && forall i | 0 <= i < |replies| :: replies[i] == ReplyTo(After(ops[..i]), ops[i])
  }

  lemma AfterNext(ops: seq<Op>, n: nat)
    requires n < |ops|
    ensures After(ops[..n + 1]) == Apply(After(ops[..n]), ops[n])
  {
    assert ops[..n + 1][..n] == ops[..n];
  }

  method PerformNext(scope: ScopeMap, ops: seq<Op>, n: nat) returns (reply: Entity?)
    requires n < |ops| <= MaxLoad(MAX_CAP)
    requires scope.Stored() && scope.Contents == After(ops[..n])
    modifies scope.Repr()
    ensures scope.Stored() && fresh(scope.Repr() - old(scope.Repr())) && scope.Contents == After(ops[..n + 1])
    ensures reply == ReplyTo(After(ops[..n]), ops[n])
  {
    AtMostOnePerOp(ops[..n]);
    scope.RoomLeft(n, |ops|);
    reply := Perform(scope, ops[n]);
    AfterNext(ops, n);
  }

  lemma ReplyNext(ops: seq<Op>, replies: seq<Entity?>, reply: Entity?)
    requires |replies| < |ops| && Replied(ops, replies)
    requires reply == ReplyTo(After(ops[..|replies|]), ops[|replies|])
    ensures Replied(ops, replies + [reply])
  {
  }

  method PerformAll(scope: ScopeMap, ops: seq<Op>) returns (replies: seq<Entity?>)
    requires scope.Stored() && scope.Contents == map[] && |ops| <= MaxLoad(MAX_CAP)
    modifies scope.Repr()
    ensures scope.Stored() && scope.Contents == After(ops)
    ensures |replies| == |ops| && Replied(ops, replies)
  {
    replies := [];
    for n := 0 to |ops|
      invariant |replies| == n && Replied(ops, replies)
      invariant scope.Stored() && fresh(scope.Repr() - old(scope.Repr())) && scope.Contents == After(ops[..n])
    {
      var reply := PerformNext(scope, ops, n);
      ReplyNext(ops, replies, reply);
      replies := replies + [reply];
    }
    assert ops[..|ops|] == ops;
  }

  /** What a lookup finds after a run, told by the operations alone: the value of the final
      insertion of the key, or null. */
  ghost predicate Finds(ops: seq<Op>, key: InternedString, found: Entity?) {
    && (forall i: nat | LastBinding(ops, key, i) :: found == ops[i].value)
    && ((forall i: nat :: !LastBinding(ops, key, i)) ==> found == null)
  }

  lemma LookupFinds(ops: seq<Op>, key: InternedString)
    ensures Finds(ops, key, Lookup(After(ops), key))
  {
    BoundByLast(ops, key);
  }

  /** Any run on a fresh scope, however often it displaces and grows: each insertion reports
      the binding it replaces, and a lookup afterwards finds the final one. */
  method Run(ops: seq<Op>, query: InternedString) returns (replies: seq<Entity?>, found: Entity?)
    requires |ops| <= 0x6000_0000
    ensures |replies| == |ops|
    ensures Replied(ops, replies)
    ensures forall k | 0 <= k < |ops| && ops[k].Bind? :: Finds(ops[..k], ops[k].key, replies[k])
    ensures found == Lookup(After(ops), query) && Finds(ops, query, found)
  {
    var scope := new ScopeMap();
    scope.Init();
    replies := PerformAll(scope, ops);
    found := scope.Get(query, query.Hash());
    LookupFinds(ops, query);
    forall k | 0 <= k < |ops| && ops[k].Bind? ensures Finds(ops[..k], ops[k].key, replies[k]) {
      LookupFinds(ops[..k], ops[k].key);
    }
  }
}

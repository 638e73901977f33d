/** What the LRU+TTL cache (pkg/infrastructure/cache/memory.go) means: a sequence of items, most recently
    used first. The cache with the larger cap always includes the one with the smaller cap. */
module LruSpec {
  import opened Results

  type Bytes = seq<bv8>

  /** `expiresAt` is None for an entry that never expires. */
  datatype Item = Item(key: string, value: Bytes, expiresAt: Option<int>)

  type Contents = seq<Item>

  predicate Expired(item: Item, now: int) {
    item.expiresAt.Some? && now > item.expiresAt.value
  }

  predicate DistinctKeys(c: Contents) {
    forall i, j :: 0 <= i < j < |c| ==> c[i].key != c[j].key
  }

  predicate HasKey(c: Contents, key: string) {
    exists i :: 0 <= i < |c| && c[i].key == key
  }

  function Find(c: Contents, key: string): (item: Item)
    requires HasKey(c, key)
    ensures item in c && item.key == key
  {
    if c[0].key == key then c[0] else Find(c[1..], key)
  }

  // ---- Filtering ----

  datatype Test = NotKey(key: string) | Live(now: int) | KeyIn(keys: set<string>)

  predicate Passes(item: Item, t: Test) {
    match t
    case NotKey(key) => item.key != key
    case Live(now) => !Expired(item, now)
    case KeyIn(keys) => item.key in keys
  }

  function Filter(c: Contents, t: Test): (r: Contents)
    ensures |r| <= |c|
    ensures forall item :: item in r <==> item in c && Passes(item, t)
  {
    if c == [] then [] else (if Passes(c[0], t) then [c[0]] else []) + Filter(c[1..], t)
  }

  lemma {:induction false} FilterDistinct(c: Contents, t: Test)
    requires DistinctKeys(c)
    ensures DistinctKeys(Filter(c, t))
  {
    if c != [] {
      FilterDistinct(c[1..], t);
      var rest := Filter(c[1..], t);
      forall j | 0 <= j < |rest| ensures rest[j].key != c[0].key {
        assert rest[j] in c[1..];
      }
    }
  }

  lemma {:induction false} FilterCommute(c: Contents, t: Test, u: Test)
    ensures Filter(Filter(c, t), u) == Filter(Filter(c, u), t)
  {
    if c != [] {
      FilterCommute(c[1..], t, u);
      FilterHead(c, t, u);
      FilterHead(c, u, t);
    }
  }

  lemma FilterHead(c: Contents, t: Test, u: Test)
    requires c != []
    ensures Filter(Filter(c, t), u)
         == (if Passes(c[0], t) && Passes(c[0], u) then [c[0]] else []) + Filter(Filter(c[1..], t), u)
  {
    if Passes(c[0], t) {
      assert Filter(c, t) == [c[0]] + Filter(c[1..], t);
    } else {
      assert Filter(c, t) == Filter(c[1..], t);
    }
  }

  lemma {:induction false} FilterSame(c: Contents, t: Test, u: Test)
    requires forall item :: item in c ==> (Passes(item, t) <==> Passes(item, u))
    ensures Filter(c, t) == Filter(c, u)
  {
    if c != [] {
      FilterSame(c[1..], t, u);
    }
  }

  lemma {:induction false} FilterAll(c: Contents, t: Test)
    requires forall item :: item in c ==> Passes(item, t)
    ensures Filter(c, t) == c
  {
    if c != [] {
      FilterAll(c[1..], t);
    }
  }

  /** Filtering first never widens the gap that another filter leaves. */
  lemma {:induction false} FilterGap(c: Contents, t: Test, u: Test)
    ensures |Filter(c, t)| - |Filter(Filter(c, t), u)| <= |c| - |Filter(c, u)|
  {
    if c != [] {
      FilterGap(c[1..], t, u);
      FilterHead(c, t, u);
    }
  }

  lemma FilterCons(item: Item, c: Contents, t: Test)
    ensures Filter([item] + c, t) == (if Passes(item, t) then [item] else []) + Filter(c, t)
  {
    assert ([item] + c)[1..] == c;
  }

  lemma FilterConsAppend(item: Item, c: Contents, b: Contents, t: Test)
    requires Filter(c + b, t) == Filter(c, t) + Filter(b, t)
    ensures Filter([item] + c + b, t) == Filter([item] + c, t) + Filter(b, t)
  {
    FilterCons(item, c, t);
    FilterCons(item, c + b, t);
    hide Filter;
    assert [item] + c + b == [item] + (c + b);
  }

  lemma {:induction false} FilterAppend(a: Contents, b: Contents, t: Test)
    ensures Filter(a + b, t) == Filter(a, t) + Filter(b, t)
  {
    if a == [] {
      assert a + b == b;
    } else {
      hide Filter, Passes;
      FilterAppend(a[1..], b, t);
      FilterConsAppend(a[0], a[1..], b, t);
      assert a == [a[0]] + a[1..];
    }
  }

  /** Dropping a key drops exactly the item at its position. */
  lemma {:induction false} FilterOut(c: Contents, i: nat)
    requires DistinctKeys(c) && i < |c|
    ensures Filter(c, NotKey(c[i].key)) == c[..i] + c[i+1..]
    ensures Find(c, c[i].key) == c[i]
  {
    if i == 0 {
      assert forall item :: item in c[1..] ==> item.key != c[0].key;
      FilterAll(c[1..], NotKey(c[0].key));
    } else {
      FilterOut(c[1..], i - 1);
      assert c[1..][i-1] == c[i];
      assert c[..i] + c[i+1..] == [c[0]] + (c[1..][..i-1] + c[1..][i..]);
    }
  }

  lemma FilterAbsent(c: Contents, key: string)
    requires !HasKey(c, key)
    ensures Filter(c, NotKey(key)) == c
  {
    FilterAll(c, NotKey(key));
  }

  // ---- Operations ----

  function Without(c: Contents, key: string): Contents {
    Filter(c, NotKey(key))
  }

  datatype Answer = Miss | Hit(value: Bytes)

  function AfterGet(c: Contents, now: int, key: string): Contents {
    if !HasKey(c, key) then c
    else if Expired(Find(c, key), now) then Without(c, key)
    else [Find(c, key)] + Without(c, key)
  }

  function GetAnswer(c: Contents, now: int, key: string): Answer {
    if !HasKey(c, key) || Expired(Find(c, key), now) then Miss else Hit(Find(c, key).value)
  }

  /** The contents cut down to a positive cap; a cap of zero or less means no limit. */
  function Trimmed(c: Contents, cap: int): Contents {
    if cap > 0 && |c| > cap then c[..cap] else c
  }

  function NewItem(now: int, key: string, value: Bytes, ttl: int): Item {
    Item(key, value, if ttl > 0 then Some(now + ttl) else None)
  }

  function AfterSet(cap: int, c: Contents, now: int, key: string, value: Bytes, ttl: int): Contents {
    var item := NewItem(now, key, value, ttl);
    if HasKey(c, key) then [item] + Without(c, key) else Trimmed([item] + c, cap)
  }

  function AfterSweep(c: Contents, now: int): Contents {
    Filter(c, Live(now))
  }

  datatype Op =
    | Get(now: int, key: string)
    | Set(now: int, key: string, value: Bytes, ttl: int)
    | Delete(key: string)
    | Sweep(now: int)

  function After(cap: int, c: Contents, op: Op): Contents {
    match op
    case Get(now, key) => AfterGet(c, now, key)
    case Set(now, key, value, ttl) => AfterSet(cap, c, now, key, value, ttl)
    case Delete(key) => Without(c, key)
    case Sweep(now) => AfterSweep(c, now)
  }

  /** The cache invariant: distinct keys, and no more items than a positive cap allows. */
  predicate Fits(cap: int, c: Contents) {
    DistinctKeys(c) && (cap > 0 ==> |c| <= cap)
  }

  lemma {:induction false} DropsOne(c: Contents, key: string)
    requires DistinctKeys(c)
    ensures |Without(c, key)| == if HasKey(c, key) then |c| - 1 else |c|
    ensures !HasKey(Without(c, key), key)
  {
    if HasKey(c, key) {
      var i :| 0 <= i < |c| && c[i].key == key;
      FilterOut(c, i);
    } else {
      FilterAbsent(c, key);
    }
  }

  lemma FrontDistinct(item: Item, c: Contents)
    requires DistinctKeys(c) && !HasKey(c, item.key)
    ensures DistinctKeys([item] + c)
  {
    forall j | 0 <= j < |c| ensures c[j].key != item.key {}
  }

  /** Every operation keeps the keys distinct and the size within the cap, and the item just set stays at
      the front. */
  lemma OpsKeepFit(cap: int, c: Contents, op: Op)
    requires Fits(cap, c)
    ensures Fits(cap, After(cap, c, op))
    ensures op.Set? ==> After(cap, c, op) != []
                        && After(cap, c, op)[0] == NewItem(op.now, op.key, op.value, op.ttl)
  {
    match op
    case Get(now, key) =>
      DropsOne(c, key);
      FilterDistinct(c, NotKey(key));
      if HasKey(c, key) { FrontDistinct(Find(c, key), Without(c, key)); }
    case Set(now, key, value, ttl) =>
      var item := NewItem(now, key, value, ttl);
      DropsOne(c, key);
      FilterDistinct(c, NotKey(key));
      if HasKey(c, key) {
        FrontDistinct(item, Without(c, key));
      } else {
        FrontDistinct(item, c);
      }
    case Delete(key) => FilterDistinct(c, NotKey(key));
    case Sweep(now) => FilterDistinct(c, Live(now));
  }

  // ---- Inclusion of the smaller cache in the larger ----

  function Keys(c: Contents): set<string> {
    set item | item in c :: item.key
  }

  lemma KeysMembers(c: Contents, key: string)
    ensures key in Keys(c) <==> HasKey(c, key)
  {}

  /** `a` is an order-preserving subsequence of `b`, with equal values and expiries: exactly the items of
      `b` whose keys `a` holds, in the order of `b`. */
  predicate Included(a: Contents, b: Contents) {
    a == Filter(b, KeyIn(Keys(a)))
  }

  /** The same, spelled out by positions. */
  predicate Subsequence(a: Contents, b: Contents) {
    a == [] || (b != [] && ((a[0] == b[0] && Subsequence(a[1..], b[1..])) || Subsequence(a, b[1..])))
  }

  lemma {:induction false} FilterIsSubsequence(b: Contents, t: Test)
    ensures Subsequence(Filter(b, t), b)
  {
    if b != [] {
      FilterIsSubsequence(b[1..], t);
      if Passes(b[0], t) {
        assert Filter(b, t)[1..] == Filter(b[1..], t);
      } else {
        assert Filter(b, t) == Filter(b[1..], t);
      }
    }
  }

  /** Two caches after the same operations: the small one is included, and has no more free room. */
  ghost predicate Paired(capA: int, a: Contents, capB: int, b: Contents) {
    && Fits(capA, a) && Fits(capB, b) && Included(a, b)
    && (capB > 0 ==> capA - |a| <= capB - |b|)
  }

  predicate SmallerCap(capA: int, capB: int) {
    0 < capA && (capB <= 0 || capA <= capB)
  }

  /** An included item is the same item. */
  lemma SameItem(a: Contents, b: Contents, key: string)
    requires DistinctKeys(a) && DistinctKeys(b) && Included(a, b) && HasKey(a, key)
    ensures HasKey(b, key) && Find(a, key) == Find(b, key)
  {
    var x := Find(a, key);
    assert x in b;
    var i :| 0 <= i < |b| && b[i] == x;
    FilterOut(b, i);
  }

  /** Filtering both sides keeps the inclusion and the room. */
  lemma FilterKeepsPaired(capA: int, a: Contents, capB: int, b: Contents, t: Test)
    requires Paired(capA, a, capB, b)
    ensures Paired(capA, Filter(a, t), capB, Filter(b, t))
  {
    FilterDistinct(a, t);
    FilterDistinct(b, t);
    FilterCommute(b, KeyIn(Keys(a)), t);
    var a', b' := Filter(a, t), Filter(b, t);
    assert a' == Filter(b', KeyIn(Keys(a)));
    forall item | item in b' ensures item.key in Keys(a) <==> item.key in Keys(a') {
      if item.key in Keys(a) { assert item in a && item in a' by { assert item in Filter(b, KeyIn(Keys(a))); } }
    }
    FilterSame(b', KeyIn(Keys(a)), KeyIn(Keys(a')));
    FilterGap(b, t, KeyIn(Keys(a)));
  }

  /** Putting the same item in front of both, once neither holds its key. */
  lemma FrontIncluded(item: Item, a: Contents, b: Contents)
    requires Included(a, b) && !HasKey(a, item.key) && !HasKey(b, item.key)
    ensures Included([item] + a, [item] + b)
  {
    var ks := Keys([item] + a);
    forall x | x in b ensures x.key in Keys(a) <==> x.key in ks {
      assert x.key != item.key;
      if x.key in ks {
        var y :| y in [item] + a && y.key == x.key;
        assert y in a;
      }
      if x.key in Keys(a) {
        var y :| y in a && y.key == x.key;
        assert y in [item] + a;
      }
    }
    FilterSame(b, KeyIn(Keys(a)), KeyIn(ks));
    assert item in [item] + a;
    assert ([item] + b)[1..] == b;
  }

  /** An item in front of the larger one only. */
  lemma FrontOfLarger(item: Item, a: Contents, b: Contents)
    requires Included(a, b) && !HasKey(a, item.key)
    ensures Included(a, [item] + b)
  {
    KeysMembers(a, item.key);
    assert ([item] + b)[1..] == b;
  }

  lemma {:induction false} PrefixIncluded(a: Contents, b: Contents, n: nat)
    requires DistinctKeys(a) && DistinctKeys(b) && Included(a, b) && n <= |a|
    ensures Included(a[..n], b)
    decreases |a| - n
  {
    if n == |a| {
      assert a[..n] == a;
    } else {
      PrefixIncluded(a, b, n + 1);
      var p := a[..n+1];
      var k := p[n].key;
      assert p[..n] == a[..n] && p[n+1..] == [];
      FilterOut(p, n);
      assert Without(p, k) == a[..n];
      FilterCommute(b, KeyIn(Keys(p)), NotKey(k));
      KeepWithout(b, p, k);
    }
  }

  lemma KeepWithout(b: Contents, p: Contents, k: string)
    requires DistinctKeys(p) && Included(p, b)
    ensures Included(Without(p, k), b)
  {
    var q := Without(p, k);
    forall item | item in b ensures item.key in Keys(q) <==> item.key in Keys(p) && item.key != k {
      if item.key in Keys(p) && item.key != k {
        var y :| y in p && y.key == item.key;
        assert y in q;
      }
      if item.key in Keys(q) {
        var y :| y in q && y.key == item.key;
        assert y in p && Passes(y, NotKey(k));
      }
    }
    FilterBoth(b, Keys(p), k, Keys(q));
  }

  lemma {:induction false} FilterBoth(b: Contents, ks: set<string>, k: string, out: set<string>)
    requires forall item :: item in b ==> (item.key in out <==> item.key in ks && item.key != k)
    ensures Filter(Filter(b, KeyIn(ks)), NotKey(k)) == Filter(b, KeyIn(out))
  {
    if b != [] {
      FilterBoth(b[1..], ks, k, out);
      FilterHead(b, KeyIn(ks), NotKey(k));
    }
  }

  /** The larger one loses its last item: the smaller one is still included once it has lost its last, or if
      it did not hold that item. */
  lemma LastDropped(a: Contents, b: Contents)
    requires DistinctKeys(a) && DistinctKeys(b) && Included(a, b) && a != [] && b != []
    ensures Included(a[..|a| - 1], b[..|b| - 1])
  {
    var m, n := |a| - 1, |b| - 1;
    var ks := Keys(a);
    FilterAppend(b[..n], [b[n]], KeyIn(ks));
    assert b == b[..n] + [b[n]];
    assert Filter([b[n]], KeyIn(ks)) == if b[n].key in ks then [b[n]] else [];
    var kept := Filter(b[..n], KeyIn(ks));
    if b[n].key in ks {
      assert a == kept + [b[n]];
      assert kept == a[..m];
      forall item | item in b[..n] ensures item.key in ks <==> item.key in Keys(a[..m]) {
        if item.key in ks { assert item in kept; }
        if item.key in Keys(a[..m]) {
          var y :| y in a[..m] && y.key == item.key;
          assert y in a;
        }
      }
      FilterSame(b[..n], KeyIn(ks), KeyIn(Keys(a[..m])));
    } else {
      assert a == kept;
      assert Included(a, b[..n]);
      PrefixIncluded(a, b[..n], m);
    }
  }

  /** One operation on both caches. */
  lemma StepKeepsPaired(capA: int, a: Contents, capB: int, b: Contents, op: Op)
    requires SmallerCap(capA, capB) && Paired(capA, a, capB, b)
    ensures Paired(capA, After(capA, a, op), capB, After(capB, b, op))
    ensures op.Get? && GetAnswer(a, op.now, op.key).Hit? ==>
              GetAnswer(b, op.now, op.key) == GetAnswer(a, op.now, op.key)
  {
    OpsKeepFit(capA, a, op);
    OpsKeepFit(capB, b, op);
    match op
    case Get(now, key) => GetKeepsPaired(capA, a, capB, b, now, key);
    case Set(now, key, value, ttl) => SetKeepsPaired(capA, a, capB, b, NewItem(now, key, value, ttl), op);
    case Delete(key) => FilterKeepsPaired(capA, a, capB, b, NotKey(key));
    case Sweep(now) => FilterKeepsPaired(capA, a, capB, b, Live(now));
  }

  lemma GetKeepsPaired(capA: int, a: Contents, capB: int, b: Contents, now: int, key: string)
    requires SmallerCap(capA, capB) && Paired(capA, a, capB, b)
    requires Fits(capA, AfterGet(a, now, key)) && Fits(capB, AfterGet(b, now, key))
    ensures Paired(capA, AfterGet(a, now, key), capB, AfterGet(b, now, key))
    ensures GetAnswer(a, now, key).Hit? ==> GetAnswer(b, now, key) == GetAnswer(a, now, key)
  {
    FilterKeepsPaired(capA, a, capB, b, NotKey(key));
    DropsOne(a, key);
    DropsOne(b, key);
    if HasKey(a, key) {
      SameItem(a, b, key);
      FrontIncluded(Find(a, key), Without(a, key), Without(b, key));
    } else if HasKey(b, key) {
      FilterAbsent(a, key);
      FrontOfLarger(Find(b, key), a, Without(b, key));
    }
  }

  lemma SetKeepsPaired(capA: int, a: Contents, capB: int, b: Contents, item: Item, op: Op)
    requires SmallerCap(capA, capB) && Paired(capA, a, capB, b)
    requires op.Set? && item == NewItem(op.now, op.key, op.value, op.ttl)
    requires Fits(capA, After(capA, a, op)) && Fits(capB, After(capB, b, op))
    ensures Paired(capA, After(capA, a, op), capB, After(capB, b, op))
  {
    hide Included, Fits;
    PairedFacts(capA, a, capB, b);
    if HasKey(a, item.key) {
      SetHeldByBoth(capA, a, capB, b, item);
    } else if HasKey(b, item.key) {
      SetHeldByLarger(capA, a, capB, b, item);
    } else {
      SetNew(capA, a, capB, b, item);
    }
  }

  lemma PairedFacts(capA: int, a: Contents, capB: int, b: Contents)
    requires Paired(capA, a, capB, b)
    ensures forall key :: HasKey(a, key) ==> HasKey(b, key)
    ensures DistinctKeys(a) && DistinctKeys(b) && Included(a, b)
    ensures (capA > 0 ==> |a| <= capA) && (capB > 0 ==> |b| <= capB && capA - |a| <= capB - |b|)
  {
    forall key | HasKey(a, key) ensures HasKey(b, key) { SameItem(a, b, key); }
  }

  lemma SetHeldByBoth(capA: int, a: Contents, capB: int, b: Contents, item: Item)
    requires Paired(capA, a, capB, b) && HasKey(a, item.key) && HasKey(b, item.key)
    ensures Included([item] + Without(a, item.key), [item] + Without(b, item.key))
    ensures |[item] + Without(a, item.key)| == |a| && |[item] + Without(b, item.key)| == |b|
  {
    FilterKeepsPaired(capA, a, capB, b, NotKey(item.key));
    DropsOne(a, item.key);
    DropsOne(b, item.key);
    FrontIncluded(item, Without(a, item.key), Without(b, item.key));
  }

  lemma SetHeldByLarger(capA: int, a: Contents, capB: int, b: Contents, item: Item)
    requires Paired(capA, a, capB, b) && !HasKey(a, item.key) && HasKey(b, item.key)
    ensures Included(Trimmed([item] + a, capA), [item] + Without(b, item.key))
    ensures |[item] + Without(b, item.key)| == |b|
  {
    FilterKeepsPaired(capA, a, capB, b, NotKey(item.key));
    DropsOne(a, item.key);
    DropsOne(b, item.key);
    FilterAbsent(a, item.key);
    FilterDistinct(b, NotKey(item.key));
    FrontIncluded(item, a, Without(b, item.key));
    FrontDistinct(item, a);
    FrontDistinct(item, Without(b, item.key));
    TrimIncluded([item] + a, [item] + Without(b, item.key), capA);
  }

  lemma TrimIncluded(a: Contents, b: Contents, cap: int)
    requires DistinctKeys(a) && DistinctKeys(b) && Included(a, b)
    ensures Included(Trimmed(a, cap), b)
  {
    if cap > 0 && |a| > cap { PrefixIncluded(a, b, cap); }
  }

  lemma SetNew(capA: int, a: Contents, capB: int, b: Contents, item: Item)
    requires SmallerCap(capA, capB) && Paired(capA, a, capB, b) && !HasKey(a, item.key) && !HasKey(b, item.key)
    ensures Included(Trimmed([item] + a, capA), Trimmed([item] + b, capB))
  {
    FrontIncluded(item, a, b);
    FrontDistinct(item, a);
    FrontDistinct(item, b);
    var grownA, grownB := [item] + a, [item] + b;
    if capB > 0 && |grownB| > capB {
      LastDropped(grownA, grownB);
    } else {
      TrimIncluded(grownA, grownB, capA);
    }
  }

  // ---- Whole runs ----

  function Run(cap: int, ops: seq<Op>): Contents {
    if ops == [] then [] else After(cap, Run(cap, ops[..|ops| - 1]), ops[|ops| - 1])
  }

  /** The answer of the n-th operation, if it is a Get. */
  function AnswerAt(cap: int, ops: seq<Op>, n: nat): Answer
    requires n < |ops| && ops[n].Get?
  {
    GetAnswer(Run(cap, ops[..n]), ops[n].now, ops[n].key)
  }

  lemma {:induction false} RunPaired(capA: int, capB: int, ops: seq<Op>)
    requires SmallerCap(capA, capB)
    ensures Paired(capA, Run(capA, ops), capB, Run(capB, ops))
  {
    hide Paired, After;
    if ops == [] {
      EmptyPaired(capA, capB);
    } else {
      RunPaired(capA, capB, ops[..|ops| - 1]);
      StepKeepsPaired(capA, Run(capA, ops[..|ops| - 1]), capB, Run(capB, ops[..|ops| - 1]), ops[|ops| - 1]);
    }
  }

  lemma EmptyPaired(capA: int, capB: int)
    requires SmallerCap(capA, capB)
    ensures Paired(capA, [], capB, [])
  {}

  /** LRU inclusion: after any operations, the cache with the smaller cap is an order-preserving subsequence
      of the one with the larger or no cap, with equal values and expiries. */
  lemma Inclusion(capA: int, capB: int, ops: seq<Op>)
    requires SmallerCap(capA, capB)
    ensures Included(Run(capA, ops), Run(capB, ops))
    ensures Subsequence(Run(capA, ops), Run(capB, ops))
  {
    RunPaired(capA, capB, ops);
    FilterIsSubsequence(Run(capB, ops), KeyIn(Keys(Run(capA, ops))));
  }

  /** Raising the cap never turns a hit into a miss, nor changes the value of a hit. */
  lemma RaisingCapKeepsHits(capA: int, capB: int, ops: seq<Op>, n: nat)
    requires SmallerCap(capA, capB) && n < |ops| && ops[n].Get?
    ensures AnswerAt(capA, ops, n).Hit? ==> AnswerAt(capB, ops, n) == AnswerAt(capA, ops, n)
  {
    RunPaired(capA, capB, ops[..n]);
    StepKeepsPaired(capA, Run(capA, ops[..n]), capB, Run(capB, ops[..n]), ops[n]);
  }
}

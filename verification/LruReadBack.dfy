/** What a caller of the cache (pkg/infrastructure/cache/memory.go) reads back, in terms of the calls alone: the
    value last set, for as long as its time to live lasts and too few other keys are used to push it out. */
module LruReadBack {
  import opened Results
  import opened LruSpec
  import Text

  // ---- Histories ----

  predicate Timed(op: Op) {
    op.Get? || op.Set? || op.Sweep?
  }

  /** The readings of the clock never decrease. */
  predicate Chronological(ops: seq<Op>) {
    forall i, j :: 0 <= i < j < |ops| && Timed(ops[i]) && Timed(ops[j]) ==> ops[i].now <= ops[j].now
  }

  predicate Writes(op: Op, key: string) {
    (op.Set? || op.Delete?) && op.key == key
  }

  /** Between the two calls nobody sets or deletes the key. */
  predicate Untouched(ops: seq<Op>, i: int, n: nat, key: string)
    requires -1 <= i && n <= |ops|
  {
    forall k :: i < k < n ==> !Writes(ops[k], key)
  }

  /** The call reads or sets another key. */
  predicate UsesOther(op: Op, key: string) {
    (op.Get? || op.Set?) && op.key != key
  }

  /** The other keys that are read or set after call u and before call n. */
  function OthersUsed(ops: seq<Op>, u: nat, n: nat, key: string): set<string>
    requires n <= |ops|
  {
    if n <= u + 1 then {}
    else OthersUsed(ops, u, n - 1, key) + if UsesOther(ops[n-1], key) then {ops[n-1].key} else {}
  }

  // ---- Where the items of a run come from ----

  /** No call but a Set brings an item in. */
  lemma MembersAfter(cap: int, c: Contents, op: Op)
    ensures forall x :: x in After(cap, c, op) ==>
              x in c || (op.Set? && x == NewItem(op.now, op.key, op.value, op.ttl))
    ensures forall x :: x in After(cap, c, op) && op.Delete? ==> x.key != op.key
    ensures forall x :: x in After(cap, c, op) && op.Set? && x.key == op.key && DistinctKeys(c) ==>
              x == NewItem(op.now, op.key, op.value, op.ttl)
    ensures forall x :: x in After(cap, c, op) && op.Sweep? ==> !Expired(x, op.now)
    ensures forall x :: x in After(cap, c, op) && op.Get? && x.key == op.key && DistinctKeys(c) ==> !Expired(x, op.now)
  {
    match op
    case Get(now, key) =>
    case Set(now, key, value, ttl) =>
      if !HasKey(c, key) {
        var grown := [NewItem(now, key, value, ttl)] + c;
        assert forall x :: x in Trimmed(grown, cap) ==> x in grown;
      }
    case Delete(key) =>
    case Sweep(now) =>
  }

  lemma {:induction false} RunFits(cap: int, ops: seq<Op>)
    ensures Fits(cap, Run(cap, ops))
  {
    hide After, Fits;
    if ops == [] {
      EmptyFits(cap);
    } else {
      RunFits(cap, ops[..|ops| - 1]);
      OpsKeepFit(cap, Run(cap, ops[..|ops| - 1]), ops[|ops| - 1]);
    }
  }

  lemma EmptyFits(cap: int)
    ensures Fits(cap, [])
  {}

  lemma RunStep(cap: int, ops: seq<Op>, m: nat)
    requires m < |ops|
    ensures Run(cap, ops[..m+1]) == After(cap, Run(cap, ops[..m]), ops[m])
    ensures DistinctKeys(Run(cap, ops[..m]))
  {
    hide After;
    assert ops[..m+1][..m] == ops[..m];
    RunFits(cap, ops[..m]);
  }

  /** Until the key is written again, whatever the cache holds under it is what was set. */
  lemma {:induction false} HoldsWhatWasSet(cap: int, ops: seq<Op>, i: nat, m: nat, x: Item)
    requires i < m <= |ops| && ops[i].Set? && Untouched(ops, i, m, ops[i].key)
    requires x in Run(cap, ops[..m]) && x.key == ops[i].key
    ensures x == NewItem(ops[i].now, ops[i].key, ops[i].value, ops[i].ttl)
  {
    hide After, Run;
    RunStep(cap, ops, m - 1);
    MembersAfter(cap, Run(cap, ops[..m-1]), ops[m-1]);
    if m > i + 1 {
      assert !Writes(ops[m-1], ops[i].key);
      HoldsWhatWasSet(cap, ops, i, m - 1, x);
    }
  }

  lemma NotHeld(c: Contents, key: string)
    ensures HasKey(c, key) <==> exists x :: x in c && x.key == key
  {}

  /** After a Delete, and before the first Set, the cache holds nothing under the key. */
  lemma {:induction false} HoldsNothing(cap: int, ops: seq<Op>, i: int, m: nat, key: string)
    requires -1 <= i < m <= |ops| && (i >= 0 ==> ops[i] == Delete(key)) && Untouched(ops, i, m, key)
    ensures !HasKey(Run(cap, ops[..m]), key)
  {
    if m > 0 {
      hide After, Run, HasKey;
      RunStep(cap, ops, m - 1);
      NotHeld(Run(cap, ops[..m-1]), key);
      NotHeld(Run(cap, ops[..m]), key);
      MembersAfter(cap, Run(cap, ops[..m-1]), ops[m-1]);
      if m > i + 1 {
        assert !Writes(ops[m-1], key);
        HoldsNothing(cap, ops, i, m - 1, key);
      }
    }
  }

  // ---- What stays ----

  /** The item is there, and all items more recently used have their keys among `used`. */
  predicate InFront(c: Contents, item: Item, used: set<string>) {
    c != [] && (c[0] == item || (c[0].key in used && InFront(c[1..], item, used)))
  }

  lemma {:induction false} InFrontIsHeld(c: Contents, item: Item, used: set<string>)
    requires DistinctKeys(c) && InFront(c, item, used)
    ensures HasKey(c, item.key) && Find(c, item.key) == item
  {
    if c[0] != item {
      InFrontIsHeld(c[1..], item, used);
      var i :| 0 <= i < |c[1..]| && c[1..][i].key == item.key;
      assert c[i+1].key == item.key;
    }
  }

  lemma {:induction false} FilterKeepsFront(c: Contents, t: Test, item: Item, used: set<string>)
    requires InFront(c, item, used) && Passes(item, t)
    ensures InFront(Filter(c, t), item, used)
  {
    hide Passes;
    if c[0] != item {
      FilterKeepsFront(c[1..], t, item, used);
      var rest := Filter(c[1..], t);
      assert ([c[0]] + rest)[1..] == rest;
      assert [] + rest == rest;
    }
  }

  lemma {:induction false} MoreUsed(c: Contents, item: Item, used: set<string>, more: set<string>)
    requires InFront(c, item, used) && used <= more
    ensures InFront(c, item, more)
  {
    if c[0] != item { MoreUsed(c[1..], item, used, more); }
  }

  lemma UsedInFront(x: Item, c: Contents, item: Item, used: set<string>)
    requires InFront(c, item, used)
    ensures InFront([x] + c, item, used + {x.key})
  {
    MoreUsed(c, item, used, used + {x.key});
    assert ([x] + c)[1..] == c;
  }

  lemma {:induction false} FewerUsed(c: Contents, item: Item, used: set<string>, key: string)
    requires InFront(c, item, used) && forall x :: x in c ==> x.key != key
    ensures InFront(c, item, used - {key})
  {
    if c[0] != item { FewerUsed(c[1..], item, used, key); }
  }

  /** Fewer other keys used than the cap allows: the item is not pushed out. */
  lemma {:induction false} TrimKeepsFront(c: Contents, cap: nat, item: Item, used: set<string>)
    requires DistinctKeys(c) && InFront(c, item, used) && |used| < cap <= |c|
    ensures InFront(c[..cap], item, used)
  {
    if c[0] != item {
      FewerUsed(c[1..], item, used, c[0].key);
      assert |used - {c[0].key}| == |used| - 1;
      TrimKeepsFront(c[1..], cap - 1, item, used - {c[0].key});
      MoreUsed(c[1..][..cap-1], item, used - {c[0].key}, used);
      assert c[..cap][1..] == c[1..][..cap-1];
    }
  }

  /** The item is still there, or gone because it has expired by `now`. */
  predicate StillThere(c: Contents, item: Item, used: set<string>, now: int) {
    InFront(c, item, used) || (Expired(item, now) && !HasKey(c, item.key))
  }

  function NowUsed(used: set<string>, op: Op, key: string): set<string> {
    used + if UsesOther(op, key) then {op.key} else {}
  }

  lemma GetStays(c: Contents, now0: int, key: string, item: Item, used: set<string>, now: int)
    requires DistinctKeys(c) && InFront(c, item, used) && now0 <= now
    ensures StillThere(AfterGet(c, now0, key), item, NowUsed(used, Get(now0, key), item.key), now)
  {
    hide InFront;
    InFrontIsHeld(c, item, used);
    DropsOne(c, key);
    if key == item.key {
      if !Expired(item, now0) { FirstIsInFront(item, Without(c, key), used); }
    } else {
      FilterKeepsFront(c, NotKey(key), item, used);
      MoreUsed(c, item, used, used + {key});
      MoreUsed(Without(c, key), item, used, used + {key});
      if HasKey(c, key) { UsedInFront(Find(c, key), Without(c, key), item, used); }
    }
  }

  lemma FirstIsInFront(item: Item, rest: Contents, used: set<string>)
    ensures InFront([item] + rest, item, used) && used + {} == used
  {}

  lemma SetStays(cap: int, c: Contents, op: Op, item: Item, used: set<string>)
    requires DistinctKeys(c) && InFront(c, item, used) && op.Set? && op.key != item.key
    requires cap > 0 ==> |used + {op.key}| < cap
    ensures InFront(After(cap, c, op), item, used + {op.key})
  {
    hide InFront;
    var x := NewItem(op.now, op.key, op.value, op.ttl);
    if HasKey(c, op.key) {
      FilterKeepsFront(c, NotKey(op.key), item, used);
      UsedInFront(x, Without(c, op.key), item, used);
    } else {
      UsedInFront(x, c, item, used);
      FrontDistinct(x, c);
      if cap > 0 && |[x] + c| > cap { TrimKeepsFront([x] + c, cap, item, used + {op.key}); }
    }
  }

  lemma SweepStays(c: Contents, now0: int, item: Item, used: set<string>, now: int)
    requires DistinctKeys(c) && InFront(c, item, used) && now0 <= now
    ensures StillThere(AfterSweep(c, now0), item, used, now)
  {
    hide InFront, HasKey;
    if Expired(item, now0) {
      InFrontIsHeld(c, item, used);
      OnlyItem(c, item);
      NotHeld(AfterSweep(c, now0), item.key);
    } else {
      FilterKeepsFront(c, Live(now0), item, used);
    }
  }

  lemma {:induction false} OnlyItem(c: Contents, item: Item)
    requires DistinctKeys(c) && HasKey(c, item.key) && Find(c, item.key) == item
    ensures forall x :: x in c && x.key == item.key ==> x == item
  {}

  /** A call that does not write the key leaves its item there, unless it has expired. */
  lemma StepStays(cap: int, c: Contents, op: Op, item: Item, used: set<string>, now: int)
    requires DistinctKeys(c) && StillThere(c, item, used, now) && !Writes(op, item.key)
    requires Timed(op) ==> op.now <= now
    requires cap > 0 ==> |NowUsed(used, op, item.key)| < cap
    ensures StillThere(After(cap, c, op), item, NowUsed(used, op, item.key), now)
  {
    hide InFront;
    assert used + {} == used;
    if InFront(c, item, used) {
      match op
      case Get(now0, key) => GetStays(c, now0, key, item, used, now);
      case Set(_, _, _, _) => SetStays(cap, c, op, item, used);
      case Delete(key) => FilterKeepsFront(c, NotKey(key), item, used);
      case Sweep(now0) => SweepStays(c, now0, item, used, now);
    } else {
      hide After, HasKey;
      NotHeld(c, item.key);
      NotHeld(After(cap, c, op), item.key);
      MembersAfter(cap, c, op);
    }
  }

  // ---- Reading back ----

  /** The last call before n that moves the key to the front: the Set itself, or a later Get that hits. */
  predicate Touches(cap: int, ops: seq<Op>, i: nat, u: nat)
    requires i < |ops| && ops[i].Set? && u < |ops|
  {
    u == i || (i < u && ops[u].Get? && ops[u].key == ops[i].key && AnswerAt(cap, ops, u).Hit?)
  }

  function ItemOf(op: Op): Item
    requires op.Set?
  {
    NewItem(op.now, op.key, op.value, op.ttl)
  }

  lemma TouchedIsFirst(cap: int, ops: seq<Op>, i: nat, u: nat)
    requires i < |ops| && u < |ops| && ops[i].Set? && Untouched(ops, i, u, ops[i].key) && Touches(cap, ops, i, u)
    ensures InFront(Run(cap, ops[..u+1]), ItemOf(ops[i]), {})
  {
    RunFits(cap, ops[..u]);
    RunStep(cap, ops, u);
    var c := Run(cap, ops[..u]);
    if u == i {
      OpsKeepFit(cap, c, ops[u]);
    } else {
      var x := Find(c, ops[u].key);
      HoldsWhatWasSet(cap, ops, i, u, x);
    }
  }

  lemma TouchStays(cap: int, ops: seq<Op>, i: nat, u: nat, now: int)
    requires i < |ops| && u < |ops| && ops[i].Set? && Quiet(ops, i, u + 1, ops[i].key, now) && Touches(cap, ops, i, u)
    ensures StillThere(Run(cap, ops[..u+1]), ItemOf(ops[i]), OthersUsed(ops, u, u + 1, ops[i].key), now)
  {
    hide Run, InFront, Touches, ItemOf;
    TouchedIsFirst(cap, ops, i, u);
  }

  /** Neither a write of this key nor a reading later than `now` between the two calls. */
  predicate Quiet(ops: seq<Op>, i: nat, m: nat, key: string, now: int)
    requires m <= |ops|
  {
    Untouched(ops, i, m, key) && forall k :: i < k < m && Timed(ops[k]) ==> ops[k].now <= now
  }

  lemma QuietBefore(ops: seq<Op>, i: nat, m: nat, key: string, now: int)
    requires i + 1 < m <= |ops| && Quiet(ops, i, m, key, now)
    ensures Quiet(ops, i, m - 1, key, now)
    ensures !Writes(ops[m-1], key) && (Timed(ops[m-1]) ==> ops[m-1].now <= now)
  {}

  lemma StaysOne(cap: int, ops: seq<Op>, m: nat, item: Item, before: set<string>, used: set<string>, now: int)
    requires m < |ops| && StillThere(Run(cap, ops[..m]), item, before, now)
    requires !Writes(ops[m], item.key) && (Timed(ops[m]) ==> ops[m].now <= now)
    requires used == NowUsed(before, ops[m], item.key) && (cap > 0 ==> |used| < cap)
    ensures StillThere(Run(cap, ops[..m+1]), item, used, now)
  {
    hide Run, After, StillThere, Writes, Timed, NowUsed;
    RunStep(cap, ops, m);
    StepStays(cap, Run(cap, ops[..m]), ops[m], item, before, now);
  }

  lemma {:induction false} StaysSince(cap: int, ops: seq<Op>, i: nat, u: nat, m: nat, now: int)
    requires i < |ops| && u < m <= |ops| && ops[i].Set? && i <= u
    requires Quiet(ops, i, m, ops[i].key, now) && Touches(cap, ops, i, u)
    requires cap > 0 ==> |OthersUsed(ops, u, m, ops[i].key)| < cap
    ensures StillThere(Run(cap, ops[..m]), ItemOf(ops[i]), OthersUsed(ops, u, m, ops[i].key), now)
  {
    hide Run, StillThere, Touches, ItemOf, Quiet, Writes, Timed, NowUsed, OthersUsed;
    if m == u + 1 {
      TouchStays(cap, ops, i, u, now);
    } else {
      var key := ops[i].key;
      QuietBefore(ops, i, m, key, now);
      FewerOthers(ops, u, m, key);
      StaysSince(cap, ops, i, u, m - 1, now);
      ItemOfKey(ops[i]);
      StaysOne(cap, ops, m - 1, ItemOf(ops[i]), OthersUsed(ops, u, m - 1, key), OthersUsed(ops, u, m, key), now);
    }
  }

  lemma ItemOfKey(op: Op)
    requires op.Set?
    ensures ItemOf(op).key == op.key
  {}

  lemma FewerOthers(ops: seq<Op>, u: nat, m: nat, key: string)
    requires u + 1 < m <= |ops|
    ensures OthersUsed(ops, u, m, key) == NowUsed(OthersUsed(ops, u, m - 1, key), ops[m-1], key)
    ensures |OthersUsed(ops, u, m - 1, key)| <= |OthersUsed(ops, u, m, key)|
  {
    Text.SubsetCard(OthersUsed(ops, u, m - 1, key), OthersUsed(ops, u, m, key));
  }

  /** What is read back of a Set, unless the key is written again or pushed out. */
  predicate ReadsBack(a: Answer, set0: Op, now: int)
    requires set0.Set?
  {
    a == if set0.ttl <= 0 || now <= set0.now + set0.ttl then Hit(set0.value) else Miss
  }

  /** Read-back: a Get answers with the value last set under the key, exactly as long as its time to live lasts. So
      it does without a cap; and under a cap as long as fewer other keys than the cap allows have been read or set
      since the key itself was last set, or last read successfully. */
  lemma ReadBack(cap: int, ops: seq<Op>, i: nat, u: nat, n: nat)
    requires Chronological(ops) && i <= u < n < |ops| && ops[i].Set? && ops[n].Get? && ops[n].key == ops[i].key
    requires Untouched(ops, i, n, ops[i].key) && Touches(cap, ops, i, u)
    requires cap <= 0 || |OthersUsed(ops, u, n, ops[i].key)| < cap
    ensures ReadsBack(AnswerAt(cap, ops, n), ops[i], ops[n].now)
  {
    hide Run, InFront, Touches;
    StaysSince(cap, ops, i, u, n, ops[n].now);
    RunFits(cap, ops[..n]);
    if InFront(Run(cap, ops[..n]), ItemOf(ops[i]), OthersUsed(ops, u, n, ops[i].key)) {
      InFrontIsHeld(Run(cap, ops[..n]), ItemOf(ops[i]), OthersUsed(ops, u, n, ops[i].key));
    }
  }

  /** Whatever the cap and however the clock runs, a hit is the value last set, within its time to live. */
  lemma NeverStale(cap: int, ops: seq<Op>, i: nat, n: nat)
    requires i < n < |ops| && ops[i].Set? && ops[n].Get? && ops[n].key == ops[i].key
    requires Untouched(ops, i, n, ops[i].key)
    ensures AnswerAt(cap, ops, n).Hit? ==> ReadsBack(AnswerAt(cap, ops, n), ops[i], ops[n].now)
  {
    hide Run;
    if AnswerAt(cap, ops, n).Hit? {
      HoldsWhatWasSet(cap, ops, i, n, Find(Run(cap, ops[..n]), ops[n].key));
    }
  }

  /** A key that was never set, or was deleted since, is not there. */
  lemma DeletedIsMissed(cap: int, ops: seq<Op>, i: int, n: nat)
    requires -1 <= i < n < |ops| && ops[n].Get? && (i >= 0 ==> ops[i] == Delete(ops[n].key))
    requires Untouched(ops, i, n, ops[n].key)
    ensures AnswerAt(cap, ops, n) == Miss
  {
    hide Run;
    HoldsNothing(cap, ops, i, n, ops[n].key);
  }

  /** A sweep, or a Get of the key itself, leaves nothing behind whose time to live is over. */
  lemma ExpiredIsDropped(cap: int, ops: seq<Op>, i: nat, n: nat)
    requires i < n < |ops| && ops[i].Set? && Untouched(ops, i, n, ops[i].key)
    requires ops[n].Sweep? || (ops[n].Get? && ops[n].key == ops[i].key)
    requires HasKey(Run(cap, ops[..n+1]), ops[i].key)
    ensures ops[i].ttl <= 0 || ops[n].now <= ops[i].now + ops[i].ttl
  {
    hide Run, After;
    var x := Find(Run(cap, ops[..n+1]), ops[i].key);
    RunStep(cap, ops, n);
    MembersAfter(cap, Run(cap, ops[..n]), ops[n]);
    HoldsWhatWasSet(cap, ops, i, n + 1, x);
  }
}

/** The in-memory cache (pkg/infrastructure/cache/memory.go): a map together with a sentinel-headed circular
    doubly linked list, most recently used first, refined against the sequence of LruSpec. Every method body
    is one critical section of the cache's mutex. */
module LruCache {
  import opened Results
  import opened Text
  import opened LruSpec

  class Entry {
    const key: string
    var value: Bytes
    var expiresAt: Option<int>
    var prev: Entry?
    var next: Entry?

    constructor (key: string, value: Bytes, expiresAt: Option<int>)
      ensures this.key == key && this.value == value && this.expiresAt == expiresAt
      ensures this.prev == null && this.next == null
    {
      this.key, this.value, this.expiresAt := key, value, expiresAt;
      this.prev, this.next := null, null;
    }

    ghost function AsItem(): Item
      reads this`value, this`expiresAt
    {
      Item(key, value, expiresAt)
    }
  }

  /** The neighbours of position i of the ring: the sentinel closes it at both ends. */
  ghost function Before(head: Entry, nodes: seq<Entry>, i: int): Entry
    requires 0 <= i <= |nodes|
  {
    if i == 0 then head else nodes[i-1]
  }

  ghost function AfterNode(head: Entry, nodes: seq<Entry>, i: int): Entry
    requires 0 <= i < |nodes|
  {
    if i == |nodes| - 1 then head else nodes[i+1]
  }

  ghost function First(head: Entry, nodes: seq<Entry>): Entry {
    if nodes == [] then head else nodes[0]
  }

  /** The pointers of a set of entries, as values. */
  type Pointers = map<Entry, Entry?>

  ghost function NextOf(cells: set<Entry>): Pointers
    reads cells
  {
    map x | x in cells :: x.next
  }

  ghost function PrevOf(cells: set<Entry>): Pointers
    reads cells
  {
    map x | x in cells :: x.prev
  }

  /** The ring through `head` and `nodes` is linked forwards. */
  ghost predicate LinkedForward(head: Entry, nodes: seq<Entry>, next: Pointers) {
    && head in next && next[head] == First(head, nodes)
    && forall i :: 0 <= i < |nodes| ==> nodes[i] in next && next[nodes[i]] == AfterNode(head, nodes, i)
  }

  /** And backwards. */
  ghost predicate LinkedBackward(head: Entry, nodes: seq<Entry>, prev: Pointers) {
    && head in prev && prev[head] == Before(head, nodes, |nodes|)
    && forall i :: 0 <= i < |nodes| ==> nodes[i] in prev && prev[nodes[i]] == Before(head, nodes, i)
  }

  ghost predicate Ring(head: Entry, nodes: seq<Entry>, next: Pointers, prev: Pointers) {
    && head !in nodes && NoDup(nodes)
    && LinkedForward(head, nodes, next) && LinkedBackward(head, nodes, prev)
  }

  lemma RingAt(head: Entry, nodes: seq<Entry>, next: Pointers, prev: Pointers, e: Entry) returns (at: nat)
    requires Ring(head, nodes, next, prev) && e in nodes
    ensures at < |nodes| && nodes[at] == e
    ensures e in prev && prev[e] == Before(head, nodes, at) && e in next && next[e] == AfterNode(head, nodes, at)
    ensures Before(head, nodes, at) != e && AfterNode(head, nodes, at) != e
    ensures Before(head, nodes, at) in nodes + [head] && AfterNode(head, nodes, at) in nodes + [head]
  {
    at :| 0 <= at < |nodes| && nodes[at] == e;
  }

  lemma RingEnds(head: Entry, nodes: seq<Entry>, next: Pointers, prev: Pointers)
    requires Ring(head, nodes, next, prev)
    ensures head in next && next[head] == First(head, nodes)
    ensures head in prev && prev[head] == Before(head, nodes, |nodes|)
    ensures nodes != [] ==> nodes[|nodes| - 1] != head
  {}

  lemma RingAgrees(head: Entry, nodes: seq<Entry>, next: Pointers, prev: Pointers, next': Pointers, prev': Pointers)
    requires Ring(head, nodes, next, prev)
    requires forall x :: x == head || x in nodes ==> x in next && x in next' && next'[x] == next[x]
    requires forall x :: x == head || x in nodes ==> x in prev && x in prev' && prev'[x] == prev[x]
    ensures Ring(head, nodes, next', prev')
  {}

  // ---- Taking a position out of the ring ----

  ghost function Cut(nodes: seq<Entry>, at: nat): (r: seq<Entry>)
    requires at < |nodes|
    ensures |r| == |nodes| - 1
    ensures forall k :: 0 <= k < |r| ==> r[k] == nodes[if k < at then k else k + 1]
  {
    nodes[..at] + nodes[at+1..]
  }

  lemma CutNoDup(nodes: seq<Entry>, at: nat)
    requires NoDup(nodes) && at < |nodes|
    ensures NoDup(Cut(nodes, at)) && nodes[at] !in Cut(nodes, at)
    ensures forall x :: x in Cut(nodes, at) <==> x in nodes && x != nodes[at]
  {
    forall x ensures x in Cut(nodes, at) <==> x in nodes && x != nodes[at] {
      if x in nodes && x != nodes[at] {
        var j :| 0 <= j < |nodes| && nodes[j] == x;
        assert Cut(nodes, at)[if j < at then j else j - 1] == x;
      }
    }
  }

  lemma CutForward(head: Entry, nodes: seq<Entry>, at: nat, next: Pointers)
    requires head !in nodes && NoDup(nodes) && at < |nodes| && LinkedForward(head, nodes, next)
    ensures LinkedForward(head, Cut(nodes, at),
                          next[Before(head, nodes, at) := AfterNode(head, nodes, at)][nodes[at] := null])
  {
    var r := Cut(nodes, at);
    var next' := next[Before(head, nodes, at) := AfterNode(head, nodes, at)][nodes[at] := null];
    forall k | 0 <= k < |r| ensures r[k] in next' && next'[r[k]] == AfterNode(head, r, k) {
      var j := if k < at then k else k + 1;
      assert nodes[j] != nodes[at];
      assert at > 0 && j != at - 1 ==> nodes[j] != nodes[at-1];
    }
  }

  lemma CutBackward(head: Entry, nodes: seq<Entry>, at: nat, prev: Pointers)
    requires head !in nodes && NoDup(nodes) && at < |nodes| && LinkedBackward(head, nodes, prev)
    ensures LinkedBackward(head, Cut(nodes, at),
                           prev[AfterNode(head, nodes, at) := Before(head, nodes, at)][nodes[at] := null])
  {
    hide NoDup;
    var r := Cut(nodes, at);
    var prev' := prev[AfterNode(head, nodes, at) := Before(head, nodes, at)][nodes[at] := null];
    CutBackwardHead(head, nodes, at, prev);
    forall k | 0 <= k < |r| ensures r[k] in prev' && prev'[r[k]] == Before(head, r, k) {
      CutBackwardAt(head, nodes, at, prev, k);
    }
    hide Before, AfterNode, Cut;
  }

  lemma CutBackwardHead(head: Entry, nodes: seq<Entry>, at: nat, prev: Pointers)
    requires head !in nodes && at < |nodes| && LinkedBackward(head, nodes, prev)
    ensures var prev' := prev[AfterNode(head, nodes, at) := Before(head, nodes, at)][nodes[at] := null];
            head in prev' && prev'[head] == Before(head, Cut(nodes, at), |nodes| - 1)
  {
    var r := Cut(nodes, at);
    assert at < |nodes| - 1 ==> r[|r| - 1] == nodes[|nodes| - 1];
    assert at == |nodes| - 1 && at > 0 ==> r[|r| - 1] == nodes[at-1];
  }

  lemma CutBackwardAt(head: Entry, nodes: seq<Entry>, at: nat, prev: Pointers, k: nat)
    requires head !in nodes && NoDup(nodes) && at < |nodes| && LinkedBackward(head, nodes, prev) && k < |nodes| - 1
    ensures var x := Cut(nodes, at)[k];
            var prev' := prev[AfterNode(head, nodes, at) := Before(head, nodes, at)][nodes[at] := null];
            x in prev' && prev'[x] == Before(head, Cut(nodes, at), k)
  {
    var j := if k < at then k else k + 1;
    assert nodes[j] != nodes[at];
    assert at < |nodes| - 1 && j != at + 1 ==> nodes[j] != nodes[at+1];
    assert nodes[j] in prev && prev[nodes[j]] == Before(head, nodes, j);
    hide LinkedBackward, NoDup;
  }

  lemma CutRing(head: Entry, nodes: seq<Entry>, at: nat, next: Pointers, prev: Pointers)
    requires Ring(head, nodes, next, prev) && at < |nodes|
    ensures Ring(head, Cut(nodes, at),
                 next[Before(head, nodes, at) := AfterNode(head, nodes, at)][nodes[at] := null],
                 prev[AfterNode(head, nodes, at) := Before(head, nodes, at)][nodes[at] := null])
    ensures forall x :: x in Cut(nodes, at) <==> x in nodes && x != nodes[at]
  {
    CutForward(head, nodes, at, next);
    CutBackward(head, nodes, at, prev);
    CutNoDup(nodes, at);
    hide LinkedForward, LinkedBackward, NoDup, Cut;
  }

  /** Linking a new entry between the sentinel and the old front. */
  lemma PushRing(head: Entry, nodes: seq<Entry>, e: Entry, next: Pointers, prev: Pointers)
    requires Ring(head, nodes, next, prev) && e !in nodes && e != head
    ensures var first := First(head, nodes);
            Ring(head, [e] + nodes, next[e := first][head := e], prev[e := head][first := e])
  {
    var first := First(head, nodes);
    var r := [e] + nodes;
    var next' := next[e := first][head := e];
    var prev' := prev[e := head][first := e];
    forall k | 0 <= k < |r|
      ensures r[k] in next' && next'[r[k]] == AfterNode(head, r, k)
      ensures r[k] in prev' && prev'[r[k]] == Before(head, r, k)
    {
      assert k > 0 ==> r[k] == nodes[k-1];
      assert k > 1 ==> nodes[k-1] != nodes[0];
    }
  }

  class LruList {
    const head: Entry
    /** The entries from the most to the least recently used. */
    ghost var nodes: seq<Entry>

    ghost function Cells(): set<Entry>
      reads this
    {
      {head} + Elems(nodes)
    }

    ghost predicate Valid()
      reads this, Cells()
    {
      Ring(head, nodes, NextOf(Cells()), PrevOf(Cells()))
    }

    constructor Init()
      ensures Valid() && nodes == [] && fresh(head)
    {
      head := new Entry("", [], None);
      nodes := [];
      new;
      head.next := head;
      head.prev := head;
    }

    method PushFront(e: Entry)
      requires Valid() && e !in nodes && e != head
      modifies this, Cells()`prev, Cells()`next, e`prev, e`next
      ensures Valid() && nodes == [e] + old(nodes)
    {
      hide Ring;
      ghost var next, prev := NextOf(Cells()), PrevOf(Cells());
      RingEnds(head, nodes, next, prev);
      PushRing(head, nodes, e, next, prev);
      var first := head.next;
      e.prev := head;
      e.next := first;
      first.prev := e;
      head.next := e;
      nodes := [e] + nodes;
      RingAgrees(head, nodes, next[e := first][head := e], prev[e := head][first := e],
                 NextOf(Cells()), PrevOf(Cells()));
    }

    /** Unlinks e, which stood at position `at`; a node that is not linked is left alone. */
    method Remove(e: Entry) returns (ghost at: int)
      requires Valid() && e != head && (e in nodes || e.prev == null || e.next == null)
      modifies this, Cells()`prev, Cells()`next, e`prev, e`next
      ensures Valid()
      ensures e !in old(nodes) ==> at == -1 && nodes == old(nodes) && e.prev == old(e.prev) && e.next == old(e.next)
      ensures e in old(nodes) ==>
                && 0 <= at < |old(nodes)| && old(nodes)[at] == e && nodes == Cut(old(nodes), at)
                && e.prev == null && e.next == null
    {
      hide Ring, Cut;
      ghost var next, prev := NextOf(Cells()), PrevOf(Cells());
      at := -1;
      if e in nodes { at := RingAt(head, nodes, next, prev, e); }
      if e.prev == null || e.next == null {
        return;
      }
      ghost var p, q := Before(head, nodes, at), AfterNode(head, nodes, at);
      CutRing(head, nodes, at, next, prev);
      Unlink(e);
      nodes := Cut(nodes, at);
      RingAgrees(head, nodes, next[p := q][e := null], prev[q := p][e := null], NextOf(Cells()), PrevOf(Cells()));
    }

    /** The four pointer writes. */
    method Unlink(e: Entry)
      requires e in Cells() && e.prev != null && e.next != null
      requires e.prev in Cells() && e.next in Cells() && e.prev != e && e.next != e
      modifies Cells()`prev, Cells()`next
      ensures NextOf(Cells()) == old(NextOf(Cells())[e.prev := e.next][e := null])
      ensures PrevOf(Cells()) == old(PrevOf(Cells())[e.next := e.prev][e := null])
      ensures e.prev == null && e.next == null
    {
      e.prev.next := e.next;
      e.next.prev := e.prev;
      e.prev := null;
      e.next := null;
    }

    method MoveToFront(e: Entry) returns (ghost at: int)
      requires Valid() && e in nodes && e != head
      modifies this, Cells()`prev, Cells()`next
      ensures Valid()
      ensures 0 <= at < |old(nodes)| && old(nodes)[at] == e && nodes == [e] + Cut(old(nodes), at)
    {
      ghost var was := nodes;
      assert NoDup(was);
      at := Remove(e);
      CutNoDup(was, at);
      PushFront(e);
    }

    method Back() returns (e: Entry?)
      requires Valid()
      ensures nodes == [] ==> e == null
      ensures nodes != [] ==> e == nodes[|nodes| - 1]
    {
      RingEnds(head, nodes, NextOf(Cells()), PrevOf(Cells()));
      if head.prev == head { return null; }
      return head.prev;
    }
  }

  // ---- The cache ----

  ghost function ItemsOf(nodes: seq<Entry>): (items: Contents)
    reads Elems(nodes)`value, Elems(nodes)`expiresAt
    ensures |items| == |nodes| && forall i :: 0 <= i < |nodes| ==> items[i] == nodes[i].AsItem()
  {
    if nodes == [] then [] else [nodes[0].AsItem()] + ItemsOf(nodes[1..])
  }

  /** The list holds exactly the map's entries, each under its own key. */
  ghost predicate Mapped(entries: map<string, Entry>, nodes: seq<Entry>) {
    && (forall key :: key in entries ==> entries[key] in nodes && entries[key].key == key)
    && (forall e :: e in nodes ==> e.key in entries && entries[e.key] == e)
  }

  lemma {:induction false} MappedSize(entries: map<string, Entry>, nodes: seq<Entry>)
    requires Mapped(entries, nodes) && NoDup(nodes)
    ensures |entries| == |nodes|
  {
    if nodes == [] {
      assert entries.Keys == {};
    } else {
      var n := |nodes| - 1;
      var rest := entries - {nodes[n].key};
      assert nodes == nodes[..n] + [nodes[n]];
      MappedSize(rest, nodes[..n]);
      assert rest.Keys == entries.Keys - {nodes[n].key};
      assert |entries.Keys| == |rest.Keys| + 1;
    }
  }

  lemma MappedCut(entries: map<string, Entry>, nodes: seq<Entry>, at: nat)
    requires Mapped(entries, nodes) && NoDup(nodes) && at < |nodes|
    ensures Mapped(entries - {nodes[at].key}, Cut(nodes, at))
  {
    hide NoDup, Cut;
    CutNoDup(nodes, at);
  }

  /** The items of the list have distinct keys, namely the map's. */
  lemma MappedItems(entries: map<string, Entry>, nodes: seq<Entry>)
    requires Mapped(entries, nodes) && NoDup(nodes)
    ensures DistinctKeys(ItemsOf(nodes))
    ensures forall key :: HasKey(ItemsOf(nodes), key) <==> key in entries
  {
    var items := ItemsOf(nodes);
    forall i, j | 0 <= i < j < |items| ensures items[i].key != items[j].key {
      assert nodes[i] in nodes && nodes[j] in nodes && nodes[i] != nodes[j];
    }
    hide NoDup, DistinctKeys;
    forall key ensures HasKey(items, key) <==> key in entries {
      if key in entries {
        var i :| 0 <= i < |nodes| && nodes[i] == entries[key];
        assert items[i].key == key;
      }
    }
  }

  lemma EntryKey(entries: map<string, Entry>, nodes: seq<Entry>, e: Entry)
    requires Mapped(entries, nodes) && e in nodes
    ensures e.key in entries && entries[e.key] == e
  {}

  lemma KeyEntry(entries: map<string, Entry>, nodes: seq<Entry>, key: string)
    requires Mapped(entries, nodes) && key in entries
    ensures entries[key] in nodes && entries[key].key == key
  {}

  lemma PushItems(e: Entry, nodes: seq<Entry>)
    ensures ItemsOf([e] + nodes) == [e.AsItem()] + ItemsOf(nodes)
  {}

  lemma ItemsOfCut(nodes: seq<Entry>, at: nat)
    requires at < |nodes|
    ensures ItemsOf(Cut(nodes, at)) == ItemsOf(nodes)[..at] + ItemsOf(nodes)[at+1..]
  {
    hide ItemsOf, Cut;
  }

  /** Cutting an entry out of the list drops its key; putting it back in front moves its item there. */
  lemma CutIsWithout(nodes: seq<Entry>, at: nat)
    requires DistinctKeys(ItemsOf(nodes)) && at < |nodes|
    ensures ItemsOf(Cut(nodes, at)) == Without(ItemsOf(nodes), nodes[at].key)
    ensures ItemsOf([nodes[at]] + Cut(nodes, at)) == [nodes[at].AsItem()] + Without(ItemsOf(nodes), nodes[at].key)
  {
    hide DistinctKeys, Filter, ItemsOf, Cut;
    FilterOut(ItemsOf(nodes), at);
    ItemsOfCut(nodes, at);
    PushItems(nodes[at], Cut(nodes, at));
  }

  class MemoryCache {
    const maxEntries: int
    var entries: map<string, Entry>
    const lru: LruList

    ghost function Footprint(): set<object>
      reads this, lru
    {
      {this, lru} + lru.Cells()
    }

    ghost function Contents(): Contents
      reads Footprint()
    {
      ItemsOf(lru.nodes)
    }

    /** The map and the list agree. */
    ghost predicate Consistent()
      reads Footprint()
    {
      lru.Valid() && Mapped(entries, lru.nodes)
    }

    /** And the cap is respected. */
    ghost predicate Valid()
      reads Footprint()
    {
      Consistent() && (maxEntries > 0 ==> |entries| <= maxEntries)
    }

    constructor (maxEntries: int)
      ensures Valid() && Contents() == [] && this.maxEntries == maxEntries && fresh(Footprint() - {this})
    {
      this.maxEntries := maxEntries;
      this.entries := map[];
      this.lru := new LruList.Init();
    }

    lemma Facts()
      requires Consistent()
      ensures NoDup(lru.nodes) && lru.head !in lru.nodes
      ensures DistinctKeys(Contents()) && |entries| == |lru.nodes| == |Contents()|
      ensures forall key :: HasKey(Contents(), key) <==> key in entries
    {
      MappedItems(entries, lru.nodes);
      MappedSize(entries, lru.nodes);
    }

    lemma FoundItem(key: string)
      requires Consistent() && key in entries
      ensures HasKey(Contents(), key) && Find(Contents(), key) == entries[key].AsItem() && entries[key] in lru.nodes
    {
      hide Ring, NoDup, DistinctKeys;
      Facts();
      KeyEntry(entries, lru.nodes, key);
      var at :| 0 <= at < |lru.nodes| && lru.nodes[at] == entries[key];
      FilterOut(Contents(), at);
    }

    /** Drops e from both the map and the list. */
    method RemoveLocked(e: Entry)
      requires Consistent() && e in lru.nodes
      modifies this, lru, lru.Cells()`prev, lru.Cells()`next
      ensures Consistent() && Contents() == Without(old(Contents()), e.key)
      ensures entries == old(entries) - {e.key} && |entries| == |old(entries)| - 1
      ensures lru.Cells() < old(lru.Cells())
    {
      hide Ring, NoDup, Mapped, Filter, Cut, DistinctKeys, HasKey, ItemsOf;
      Facts();
      ghost var nodes := lru.nodes;
      EntryKey(entries, nodes, e);
      entries := entries - {e.key};
      ghost var at := lru.Remove(e);
      CutIsWithout(nodes, at);
      MappedCut(old(entries), nodes, at);
      CutNoDup(nodes, at);
      assert e in old(lru.Cells()) && e !in lru.Cells();
      Facts();
    }

    /** A private copy of stored bytes. */
    static method CopyOut(value: Bytes) returns (out: array<bv8>)
      ensures fresh(out) && out[..] == value
    {
      out := new bv8[|value|];
      for i := 0 to |value|
        invariant out[..i] == value[..i]
      {
        out[i] := value[i];
        assert out[..i+1] == out[..i] + [out[i]];
      }
      assert out[..] == out[..|value|];
    }

    /** `Get`: an expired entry is dropped and missed, a live one moves to the front. The caller gets a copy
        that nothing else refers to, so writing to it cannot reach the cache. */
    method Get(cancelled: bool, now: int, key: string) returns (answer: Answer, out: array?<bv8>, ok: bool)
      requires Valid()
      modifies this, lru, lru.Cells()`prev, lru.Cells()`next
      ensures Valid() && ok == !cancelled
      ensures cancelled ==> answer == Miss && Contents() == old(Contents())
      ensures !cancelled ==> answer == GetAnswer(old(Contents()), now, key)
                             && Contents() == After(maxEntries, old(Contents()), LruSpec.Get(now, key))
      ensures out != null <==> answer.Hit?
      ensures answer.Hit? ==> fresh(out) && out[..] == answer.value
    {
      hide After, GetAnswer, Ring, Mapped, ItemsOf, NoDup, NextOf, PrevOf;
      if cancelled { return Miss, null, false; }
      answer := Miss;
      out, ok := null, true;
      var e := Lookup(now, key);
      if e != null {
        out := CopyOut(e.value);
        answer := Hit(e.value);
      }
    }

    /** The part of `Get` that finds the live entry, if there is one. */
    method Lookup(now: int, key: string) returns (e: Entry?)
      requires Valid()
      modifies this, lru, lru.Cells()`prev, lru.Cells()`next
      ensures Valid() && Contents() == After(maxEntries, old(Contents()), LruSpec.Get(now, key))
      ensures GetAnswer(old(Contents()), now, key) == if e == null then Miss else Hit(e.value)
    {
      hide Ring, NoDup, Mapped, Filter, Cut, DistinctKeys, HasKey, Find, ItemsOf;
      Facts();
      if key !in entries { return null; }
      e := entries[key];
      FoundItem(key);
      KeyEntry(entries, lru.nodes, key);
      if e.expiresAt.Some? && now > e.expiresAt.value {
        RemoveLocked(e);
        return null;
      }
      Touch(e);
    }

    /** Moving a listed entry to the front. */
    method Touch(e: Entry)
      requires Consistent() && e in lru.nodes
      modifies lru, lru.Cells()`prev, lru.Cells()`next
      ensures Consistent() && lru.Cells() == old(lru.Cells())
      ensures Contents() == [e.AsItem()] + Without(old(Contents()), e.key)
    {
      hide Ring, NoDup, Mapped, Filter, Cut, DistinctKeys, HasKey, Find, ItemsOf;
      Facts();
      ghost var nodes := lru.nodes;
      ghost var at := lru.MoveToFront(e);
      CutIsWithout(nodes, at);
      CutNoDup(nodes, at);
      SameMembers(entries, nodes, lru.nodes);
    }

    /** `Delete`: a missing key is a no-op. */
    method Delete(cancelled: bool, key: string) returns (ok: bool)
      requires Valid()
      modifies this, lru, lru.Cells()`prev, lru.Cells()`next
      ensures Valid() && ok == !cancelled
      ensures Contents() == if cancelled then old(Contents())
                            else After(maxEntries, old(Contents()), LruSpec.Delete(key))
    {
      hide Ring, NoDup, Mapped, Filter, Cut, DistinctKeys, HasKey, Find, ItemsOf;
      if cancelled { return false; }
      ok := true;
      Facts();
      if key in entries {
        KeyEntry(entries, lru.nodes, key);
        RemoveLocked(entries[key]);
      } else {
        FilterAbsent(Contents(), key);
      }
    }

    /** `Set`: an existing key is updated in place, a new one is linked and the list is cut to the cap. The bytes
        are copied, so the caller keeps its array. */
    method Set(cancelled: bool, now: int, key: string, value: array<bv8>, ttl: int) returns (ok: bool)
      requires Valid()
      modifies this, lru, lru.Cells()
      ensures Valid() && ok == !cancelled
      ensures Contents() == if cancelled then old(Contents())
                            else After(maxEntries, old(Contents()), LruSpec.Set(now, key, value[..], ttl))
    {
      hide Ring, NoDup, Mapped, Filter, Cut, DistinctKeys, HasKey, Find, ItemsOf;
      if cancelled { return false; }
      ok := true;
      var stored := value[..];
      var expiresAt: Option<int> := if ttl > 0 then Some(now + ttl) else None;
      Facts();
      if key in entries {
        KeyEntry(entries, lru.nodes, key);
        Update(entries[key], stored, expiresAt);
        return;
      }
      Insert(key, stored, expiresAt);
      if maxEntries > 0 {
        Evict();
      }
    }

    /** Updates the entry of a held key and moves it to the front. */
    method Update(e: Entry, value: Bytes, expiresAt: Option<int>)
      requires Valid() && e in lru.nodes
      modifies this, lru, lru.Cells()
      ensures Valid() && entries == old(entries)
      ensures Contents() == [Item(e.key, value, expiresAt)] + Without(old(Contents()), e.key)
    {
      hide Ring, NoDup, Mapped, Filter, Cut, DistinctKeys, HasKey, Find, ItemsOf;
      Facts();
      ghost var items := Contents();
      ghost var at :| 0 <= at < |lru.nodes| && lru.nodes[at] == e;
      OtherPositions(lru.nodes, at);
      e.value := value;
      e.expiresAt := expiresAt;
      assert NextOf(lru.Cells()) == old(NextOf(lru.Cells())) && PrevOf(lru.Cells()) == old(PrevOf(lru.Cells()));
      assert Contents() == items[at := Item(e.key, value, expiresAt)];
      WithoutUpdated(items, at, Item(e.key, value, expiresAt));
      Touch(e);
    }

    /** Links a new entry at the front. */
    method Insert(key: string, value: Bytes, expiresAt: Option<int>)
      requires Consistent() && key !in entries
      modifies this, lru, lru.Cells()`prev, lru.Cells()`next
      ensures Consistent() && |entries| == |old(entries)| + 1
      ensures Contents() == [Item(key, value, expiresAt)] + old(Contents())
      ensures fresh(lru.Cells() - old(lru.Cells()))
    {
      hide Ring, NoDup, Mapped, Filter, Cut, DistinctKeys, HasKey, Find, ItemsOf;
      Facts();
      var e := new Entry(key, value, expiresAt);
      PushItems(e, lru.nodes);
      MappedPush(entries, lru.nodes, e);
      entries := entries[key := e];
      lru.PushFront(e);
      Facts();
    }

    /** The eviction loop: the least recently used entries go until the cap is met. */
    method Evict()
      requires Consistent() && maxEntries > 0
      modifies this, lru, lru.Cells()`prev, lru.Cells()`next
      ensures Valid() && Contents() == LruSpec.Trimmed(old(Contents()), maxEntries)
    {
      hide Consistent, Ring, Mapped, Contents;
      Facts();
      ghost var items := Contents();
      while |entries| > maxEntries
        invariant Consistent() && lru.Cells() <= old(lru.Cells())
        invariant |Contents()| == |entries| && Contents() <= items
        invariant Contents() == items || |entries| >= maxEntries
      {
        EvictOne();
      }
    }

    /** One round of that loop. */
    method EvictOne()
      requires Consistent() && |entries| > 0
      modifies this, lru, lru.Cells()`prev, lru.Cells()`next
      ensures Consistent() && lru.Cells() < old(lru.Cells())
      ensures |old(Contents())| == |old(entries)| && |entries| == |old(entries)| - 1
      ensures Contents() == old(Contents())[..|old(Contents())| - 1]
    {
      hide Ring, NoDup, Mapped, Filter, Cut, DistinctKeys, HasKey, Find, ItemsOf;
      Facts();
      ghost var items := Contents();
      var victim := lru.Back();
      if victim == null {
        assert false;  // the map, and with it the list, is not empty
      }
      ghost var last := |lru.nodes| - 1;
      FilterOut(items, last);
      assert items[..last] + items[last+1..] == items[..last];
      RemoveLocked(victim);
    }

    /** `sweep`: the map is walked in an order the caller cannot know. */
    method Sweep(now: int)
      requires Valid()
      modifies this, lru, lru.Cells()`prev, lru.Cells()`next
      ensures Valid() && Contents() == After(maxEntries, old(Contents()), LruSpec.Sweep(now))
    {
      hide Consistent, Ring, Mapped, Contents, Filter, Swept;
      Facts();
      ghost var items := Contents();
      SweptStart(items, entries.Keys, now);
      var left := entries.Keys;
      while left != {}
        invariant left <= entries.Keys
        invariant Consistent() && lru.Cells() <= old(lru.Cells()) && |entries| <= |old(entries)|
        invariant Swept(items, Contents(), entries.Keys, left, now)
        decreases left
      {
        var key :| key in left;
        FoundItem(key);
        SweptStep(items, Contents(), entries.Keys, left, now, key);
        left := left - {key};
        SweepOne(key, now);
      }
      SweptEnd(items, Contents(), entries.Keys, now);
    }

    /** One round of the walk. */
    method SweepOne(key: string, now: int)
      requires Consistent() && key in entries && HasKey(Contents(), key)
      modifies this, lru, lru.Cells()`prev, lru.Cells()`next
      ensures Consistent() && lru.Cells() <= old(lru.Cells()) && |entries| <= |old(entries)|
      ensures Expired(Find(old(Contents()), key), now) ==>
                entries == old(entries) - {key} && Contents() == Without(old(Contents()), key)
      ensures !Expired(Find(old(Contents()), key), now) ==>
                entries == old(entries) && Contents() == old(Contents())
    {
      hide Ring, NoDup, Mapped, Filter, Cut, DistinctKeys, HasKey, Find, ItemsOf;
      FoundItem(key);
      KeyEntry(entries, lru.nodes, key);
      var e := entries[key];
      if e.expiresAt.Some? && now > e.expiresAt.value {
        RemoveLocked(e);
      }
    }
  }

  /** While the sweep is under way: what is left are the items of the remaining keys, and every key
      visited remains exactly if its item has not expired. */
  ghost predicate Swept(items: Contents, rest: Contents, keys: set<string>, left: set<string>, now: int) {
    && DistinctKeys(items)
    && rest == Filter(items, KeyIn(keys))
    && forall item :: item in items ==> item.key in left || (item.key in keys <==> !Expired(item, now))
  }

  lemma SweptStart(items: Contents, keys: set<string>, now: int)
    requires DistinctKeys(items) && forall key :: HasKey(items, key) <==> key in keys
    ensures Swept(items, items, keys, keys, now)
  {
    KeepAll(items, keys);
    forall item | item in items ensures item.key in keys {
      var i :| 0 <= i < |items| && items[i] == item;
      assert HasKey(items, item.key);
    }
  }

  lemma SweptStep(items: Contents, rest: Contents, keys: set<string>, left: set<string>, now: int, key: string)
    requires Swept(items, rest, keys, left, now) && left <= keys && key in left && HasKey(rest, key)
    ensures Expired(Find(rest, key), now) ==> Swept(items, Without(rest, key), keys - {key}, left - {key}, now)
    ensures !Expired(Find(rest, key), now) ==> Swept(items, rest, keys, left - {key}, now)
  {
    FoundIn(items, rest, keys, key);
    KeyTaken(items, keys, key);
  }

  lemma SweptEnd(items: Contents, rest: Contents, keys: set<string>, now: int)
    requires Swept(items, rest, keys, {}, now)
    ensures rest == AfterSweep(items, now)
  {
    FilterSame(items, KeyIn(keys), Live(now));
  }

  lemma SameMembers(entries: map<string, Entry>, nodes: seq<Entry>, nodes': seq<Entry>)
    requires Mapped(entries, nodes) && forall e :: e in nodes' <==> e in nodes
    ensures Mapped(entries, nodes')
  {}

  lemma OtherPositions(nodes: seq<Entry>, at: nat)
    requires NoDup(nodes) && at < |nodes|
    ensures forall k :: 0 <= k < |nodes| && k != at ==> nodes[k] != nodes[at]
  {}

  lemma WithoutUpdated(items: Contents, at: nat, item: Item)
    requires DistinctKeys(items) && at < |items| && item.key == items[at].key
    ensures Without(items[at := item], item.key) == Without(items, item.key)
  {
    FilterOut(items, at);
    FilterOut(items[at := item], at);
  }

  lemma MappedPush(entries: map<string, Entry>, nodes: seq<Entry>, e: Entry)
    requires Mapped(entries, nodes) && e.key !in entries
    ensures Mapped(entries[e.key := e], [e] + nodes)
  {}

  lemma KeepAll(items: Contents, keys: set<string>)
    requires forall key :: HasKey(items, key) <==> key in keys
    ensures Filter(items, KeyIn(keys)) == items
  {
    forall item | item in items ensures item.key in keys {
      var i :| 0 <= i < |items| && items[i] == item;
      assert HasKey(items, item.key);
    }
    FilterAll(items, KeyIn(keys));
  }

  /** The item found in what is left is the only original item of its key. */
  lemma FoundIn(items: Contents, rest: Contents, keys: set<string>, key: string)
    requires DistinctKeys(items) && rest == Filter(items, KeyIn(keys)) && HasKey(rest, key)
    ensures forall item :: item in items && item.key == key ==> item == Find(rest, key)
  {
    var x := Find(rest, key);
    assert x in items;
    var i :| 0 <= i < |items| && items[i] == x;
  }

  lemma KeyTaken(items: Contents, keys: set<string>, key: string)
    ensures Without(Filter(items, KeyIn(keys)), key) == Filter(items, KeyIn(keys - {key}))
  {
    FilterBoth(items, keys, key, keys - {key});
  }
}

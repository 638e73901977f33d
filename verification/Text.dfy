/** The parts of Go's `strings` and `slices` packages that module composition relies on:
    byte-wise string order, sorting, white-space trimming, searching and splitting. */
module Text {

  /** Lexicographic order, as Go's `<=` on strings. */
  predicate Le(a: string, b: string) {
    a == [] || (b != [] && (a[0] < b[0] || (a[0] == b[0] && Le(a[1..], b[1..]))))
  }

  lemma {:induction false} LeReflexive(a: string)
    ensures Le(a, a)
  {
    if a != [] { LeReflexive(a[1..]); }
  }

  lemma {:induction false} LeTotal(a: string, b: string)
    ensures Le(a, b) || Le(b, a)
  {
    if a != [] && b != [] { LeTotal(a[1..], b[1..]); }
  }

  lemma {:induction false} LeAntisymmetric(a: string, b: string)
    requires Le(a, b) && Le(b, a)
    ensures a == b
  {
    if a != [] {
      LeAntisymmetric(a[1..], b[1..]);
      assert a == [a[0]] + a[1..] && b == [b[0]] + b[1..];
    }
  }

  lemma {:induction false} LeTransitive(a: string, b: string, c: string)
    requires Le(a, b) && Le(b, c)
    ensures Le(a, c)
  {
    if a != [] && a[0] == b[0] == c[0] { LeTransitive(a[1..], b[1..], c[1..]); }
  }

  /** Strings that agree up to position k: a prefix comes first, and otherwise the smaller character decides. */
  lemma {:induction false} LeAtDifference(a: string, b: string, k: nat)
    requires k <= |a| && k <= |b| && a[..k] == b[..k]
    ensures k == |a| ==> Le(a, b)
    ensures k == |b| < |a| ==> !Le(a, b)
    ensures k < |a| && k < |b| && a[k] != b[k] ==> (Le(a, b) <==> a[k] < b[k])
  {
    if k > 0 {
      assert a[..k][0] == b[..k][0];
      assert a[1..][..k-1] == a[..k][1..] && b[1..][..k-1] == b[..k][1..];
      LeAtDifference(a[1..], b[1..], k - 1);
    }
  }

  /** Where two sequences of one length first differ. */
  lemma {:induction false} FirstDifference<T>(a: seq<T>, b: seq<T>) returns (k: nat)
    requires |a| == |b| && a != b
    ensures k < |a| && a[..k] == b[..k] && a[k] != b[k]
  {
    if a[0] != b[0] {
      k := 0;
    } else {
      assert a == [a[0]] + a[1..] && b == [b[0]] + b[1..];
      var j := FirstDifference(a[1..], b[1..]);
      k := j + 1;
      assert a[..k] == [a[0]] + a[1..][..j] && b[..k] == [b[0]] + b[1..][..j];
    }
  }

  /** Sequences without duplicates, and the set of their elements. */
  predicate NoDup<T(==)>(s: seq<T>) {
    forall i, j :: 0 <= i < j < |s| ==> s[i] != s[j]
  }

  function Elems<T>(s: seq<T>): set<T> {
    set x | x in s
  }

  lemma {:induction false} NoDupCard<T>(s: seq<T>)
    requires NoDup(s)
    ensures |Elems(s)| == |s|
  {
    if s == [] {
      assert Elems(s) == {};
    } else {
      var n := |s| - 1;
      NoDupCard(s[..n]);
      assert s == s[..n] + [s[n]];
      assert Elems(s) == Elems(s[..n]) + {s[n]};
    }
  }

  /** A sequence longer than the finite set that holds its elements repeats one of them. */
  lemma Pigeonhole<T>(s: seq<T>, universe: set<T>)
    requires (forall x :: x in s ==> x in universe) && |universe| < |s|
    ensures exists i, j :: 0 <= i < j < |s| && s[i] == s[j]
  {
    if NoDup(s) {
      NoDupCard(s);
      SubsetCard(Elems(s), universe);
    }
  }

  lemma SubsetCard<T>(a: set<T>, b: set<T>)
    requires a <= b
    ensures |a| <= |b|
    ensures |a| == |b| ==> a == b
  {
    var rest := b - a;
    assert b == a + rest;
  }

  lemma LargerLeaves<T>(a: set<T>, b: set<T>)
    requires |b| < |a|
    ensures a - b != {}
  {
    SubsetCard(a, b + (a - b));
  }

  predicate IsSorted(s: seq<string>) {
    forall i, j :: 0 <= i <= j < |s| ==> Le(s[i], s[j])
  }

  function Insert(x: string, s: seq<string>): (r: seq<string>)
    requires IsSorted(s)
    ensures IsSorted(r) && multiset(r) == multiset{x} + multiset(s)
  {
    if s == [] then LeReflexive(x); [x]
    else if Le(x, s[0]) then
      InsertFront(x, s);
      [x] + s
    else
      var r := Insert(x, s[1..]);
      InsertAfter(x, s, r);
      assert s == [s[0]] + s[1..];
      [s[0]] + r
  }

  lemma InsertFront(x: string, s: seq<string>)
    requires IsSorted(s) && s != [] && Le(x, s[0])
    ensures IsSorted([x] + s)
  {
    LeReflexive(x);
    forall j | 0 <= j < |s| ensures Le(x, s[j]) { LeTransitive(x, s[0], s[j]); }
  }

  lemma InsertAfter(x: string, s: seq<string>, r: seq<string>)
    requires IsSorted(s) && s != [] && !Le(x, s[0])
    requires IsSorted(r) && multiset(r) == multiset{x} + multiset(s[1..])
    ensures IsSorted([s[0]] + r)
  {
    LeTotal(x, s[0]);
    LeReflexive(s[0]);
    forall j | 0 <= j < |r| ensures Le(s[0], r[j]) {
      assert r[j] in multiset(r);
      if r[j] != x {
        assert r[j] in multiset(s[1..]);
        assert r[j] in s[1..];
      }
    }
  }

  /** `slices.Sort` on strings: the ascending permutation of `s`. */
  function Sorted(s: seq<string>): (r: seq<string>)
    ensures IsSorted(r) && multiset(r) == multiset(s)
    ensures |r| == |s| && (forall x :: x in r <==> x in s)
  {
    if s == [] then []
    else
      assert s == [s[0]] + s[1..];
      var r := Insert(s[0], Sorted(s[1..]));
      PermutationFacts(r, s);
      r
  }

  lemma PermutationFacts<T>(r: seq<T>, s: seq<T>)
    requires multiset(r) == multiset(s)
    ensures |r| == |s| && (forall x :: x in r <==> x in s)
    ensures NoDup(s) ==> NoDup(r)
  {
    assert |multiset(r)| == |multiset(s)|;
    forall x ensures x in r <==> x in s {
      assert x in r <==> x in multiset(r);
      assert x in s <==> x in multiset(s);
    }
    if NoDup(s) {
      NoDupMultiset(s);
      MultisetNoDup(r);
    }
  }

  lemma {:induction false} NoDupMultiset<T>(s: seq<T>)
    requires NoDup(s)
    ensures forall x :: multiset(s)[x] <= 1
  {
    if s != [] {
      var n := |s| - 1;
      assert s == s[..n] + [s[n]];
      NoDupMultiset(s[..n]);
      assert s[n] !in multiset(s[..n]);
    }
  }

  lemma MultisetNoDup<T>(s: seq<T>)
    requires forall x :: multiset(s)[x] <= 1
    ensures NoDup(s)
  {
    forall i, j | 0 <= i < j < |s| ensures s[i] != s[j] {
      assert s == s[..j] + [s[j]] + s[j+1..];
      assert multiset(s) == multiset(s[..j]) + multiset{s[j]} + multiset(s[j+1..]);
      assert multiset(s)[s[j]] <= 1;
      assert s[j] !in multiset(s[..j]);
      assert s[i] in s[..j];
    }
  }

  /** A sorted list is determined by its elements, so the outcome of sorting never depends on the order
      in which the elements were collected. */
  lemma {:induction false} SortedUnique(a: seq<string>, b: seq<string>)
    requires IsSorted(a) && IsSorted(b) && multiset(a) == multiset(b)
    ensures a == b
  {
    PermutationFacts(a, b);
    if a != [] {
      SortedHead(a, b);
      SortedHead(b, a);
      LeAntisymmetric(a[0], b[0]);
      MultisetTail(a, b);
      SortedUnique(a[1..], b[1..]);
      assert a == [a[0]] + a[1..] && b == [b[0]] + b[1..];
    }
  }

  lemma SortedHead(a: seq<string>, b: seq<string>)
    requires IsSorted(a) && a != [] && b != [] && multiset(a) == multiset(b)
    ensures Le(a[0], b[0])
  {
    assert b[0] in multiset(b);
    assert b[0] in a;
  }

  lemma MultisetTail<T>(a: seq<T>, b: seq<T>)
    requires a != [] && b != [] && a[0] == b[0] && multiset(a) == multiset(b)
    ensures multiset(a[1..]) == multiset(b[1..])
  {
    assert a == [a[0]] + a[1..] && b == [b[0]] + b[1..];
    assert multiset(a[1..]) == multiset(a) - multiset{a[0]};
    assert multiset(b[1..]) == multiset(b) - multiset{b[0]};
  }

  /** White space in the sense of `unicode.IsSpace`. */
  predicate IsSpace(c: char) {
    || c == '\t' || c == '\n' || c == '\U{0B}' || c == '\U{0C}' || c == '\r' || c == ' '
    || c == '\U{85}' || c == '\U{A0}' || c == '\U{1680}' || '\U{2000}' <= c <= '\U{200A}'
    || c == '\U{2028}' || c == '\U{2029}' || c == '\U{202F}' || c == '\U{205F}' || c == '\U{3000}'
  }

  function TrimLeft(s: string): string {
    if s != [] && IsSpace(s[0]) then TrimLeft(s[1..]) else s
  }

  function TrimRight(s: string): string {
    if s != [] && IsSpace(s[|s| - 1]) then TrimRight(s[..|s| - 1]) else s
  }

  /** `strings.TrimSpace`. */
  function TrimSpace(s: string): string {
    TrimRight(TrimLeft(s))
  }

  /** Text without white space at either end. */
  predicate Trimmed(s: string) {
    s == [] || (!IsSpace(s[0]) && !IsSpace(s[|s| - 1]))
  }

  predicate Blank(s: string) {
    forall c :: c in s ==> IsSpace(c)
  }

  lemma {:induction false} TrimLeftIsTrimmed(s: string)
    ensures TrimLeft(s) == [] || !IsSpace(TrimLeft(s)[0])
  {
    if s != [] && IsSpace(s[0]) { TrimLeftIsTrimmed(s[1..]); }
  }

  lemma {:induction false} TrimRightIsTrimmed(s: string)
    ensures TrimRight(s) <= s
    ensures TrimRight(s) == [] || !IsSpace(TrimRight(s)[|TrimRight(s)| - 1])
  {
    if s != [] && IsSpace(s[|s| - 1]) { TrimRightIsTrimmed(s[..|s| - 1]); }
  }

  lemma TrimSpaceIsTrimmed(s: string)
    ensures Trimmed(TrimSpace(s))
  {
    TrimLeftIsTrimmed(s);
    TrimRightIsTrimmed(TrimLeft(s));
  }

  lemma TrimmedFixpoint(s: string)
    requires Trimmed(s)
    ensures TrimSpace(s) == s
  {}

  lemma {:induction false} TrimLeftPad(pre: string, s: string)
    requires Blank(pre)
    ensures TrimLeft(pre + s) == TrimLeft(s)
  {
    if pre == [] {
      assert pre + s == s;
    } else {
      assert (pre + s)[1..] == pre[1..] + s;
      TrimLeftPad(pre[1..], s);
    }
  }

  lemma {:induction false} TrimRightPad(s: string, post: string)
    requires Blank(post)
    ensures TrimRight(s + post) == TrimRight(s)
  {
    if post == [] {
      assert s + post == s;
    } else {
      var n := |post| - 1;
      assert (s + post)[..|s + post| - 1] == s + post[..n];
      TrimRightPad(s, post[..n]);
    }
  }

  /** Trimming strips exactly the surrounding white space. */
  lemma TrimSpacePad(pre: string, s: string, post: string)
    requires Blank(pre) && Blank(post) && Trimmed(s)
    ensures TrimSpace(pre + s + post) == s
  {
    assert pre + s + post == pre + (s + post);
    TrimLeftPad(pre, s + post);
    if s == [] {
      assert s + post == post + [];
      TrimLeftPad(post, []);
    } else {
      TrimRightPad(s, post);
    }
  }

  /** The pieces of `s` between the occurrences of `sep`: `strings.Split` with a one-character separator. */
  function Split(s: string, sep: char): (parts: seq<string>)
    ensures |parts| >= 1
  {
    if s == [] then [[]]
    else
      var rest := Split(s[1..], sep);
      if s[0] == sep then [[]] + rest else [[s[0]] + rest[0]] + rest[1..]
  }

  function Join(parts: seq<string>, sep: char): string
    requires |parts| >= 1
  {
    if |parts| == 1 then parts[0] else parts[0] + [sep] + Join(parts[1..], sep)
  }

  lemma {:induction false} SplitNone(s: string, sep: char)
    requires sep !in s
    ensures Split(s, sep) == [s]
  {
    if s != [] { SplitNone(s[1..], sep); assert s == [s[0]] + s[1..]; }
  }

  lemma {:induction false} SplitCons(a: string, sep: char, rest: string)
    requires sep !in a
    ensures Split(a + [sep] + rest, sep) == [a] + Split(rest, sep)
  {
    var s := a + [sep] + rest;
    if a == [] {
      assert s[1..] == rest;
    } else {
      assert s[1..] == a[1..] + [sep] + rest;
      SplitCons(a[1..], sep, rest);
      assert a == [a[0]] + a[1..];
    }
  }

  /** Splitting undoes joining, and the pieces never contain the separator. */
  lemma {:induction false} SplitJoin(parts: seq<string>, sep: char)
    requires |parts| >= 1 && forall p :: p in parts ==> sep !in p
    ensures Split(Join(parts, sep), sep) == parts
  {
    if |parts| == 1 {
      SplitNone(parts[0], sep);
    } else {
      SplitCons(parts[0], sep, Join(parts[1..], sep));
      SplitJoin(parts[1..], sep);
    }
  }

  lemma {:induction false} JoinSplit(s: string, sep: char)
    ensures Join(Split(s, sep), sep) == s
    ensures forall p :: p in Split(s, sep) ==> sep !in p
  {
    if s != [] {
      JoinSplit(s[1..], sep);
      var rest := Split(s[1..], sep);
      if s[0] == sep {
        assert Split(s, sep)[1..] == rest;
        assert Join(Split(s, sep), sep) == [] + [sep] + s[1..];
      } else {
        var first := [s[0]] + rest[0];
        assert Split(s, sep) == [first] + rest[1..];
        if |rest| > 1 {
          assert Split(s, sep)[1..] == rest[1..];
          assert Join(Split(s, sep), sep) == [s[0]] + (rest[0] + [sep] + Join(rest[1..], sep));
        }
      }
    }
  }

  /** The pieces of two texts glued by a separator are the pieces of the one, then those of the other. */
  lemma {:induction false} SplitAppend(a: string, sep: char, b: string)
    ensures Split(a + [sep] + b, sep) == Split(a, sep) + Split(b, sep)
  {
    var s := a + [sep] + b;
    if a == [] {
      assert s[1..] == b;
    } else {
      assert s[1..] == a[1..] + [sep] + b;
      SplitAppend(a[1..], sep, b);
    }
  }

  /** Position of the first character of `s` that satisfies "is `x` or `y`"; -1 when there is none:
      `strings.IndexAny`. */
  function IndexEither(s: string, x: char, y: char): (i: int)
    ensures -1 <= i < |s|
    ensures i >= 0 ==> (s[i] == x || s[i] == y) && x !in s[..i] && y !in s[..i]
    ensures i == -1 ==> x !in s && y !in s
  {
    if s == [] then -1
    else if s[0] == x || s[0] == y then 0
    else
      var i := IndexEither(s[1..], x, y);
      assert s == [s[0]] + s[1..];
      if i < 0 then -1 else
        assert s[..i + 1] == [s[0]] + s[1..][..i];
        i + 1
  }

  predicate HasPrefix(s: string, prefix: string) {
    prefix <= s
  }
}

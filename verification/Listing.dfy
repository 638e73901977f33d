/** What a filtering loop and a flattening loop produce, said of whole lists rather than round by round. */
module Listing {
  import opened Results

  /** The positions from `lo` to `hi` hold what is present in `x`. */
  predicate Placed<T(==)>(out: seq<T>, x: Option<T>, lo: int, hi: int) {
    0 <= lo <= hi <= |out| && match x case None => lo == hi case Some(v) => lo + 1 == hi && out[lo] == v
  }

  /** `at[p]` of the listed values come from before position p of `image`. */
  predicate ListedAt<T(==)>(out: seq<T>, image: seq<Option<T>>, at: seq<int>) {
    && |at| == |image| + 1 && at[0] == 0 && at[|image|] == |out|
    && forall p :: 0 <= p < |image| ==> Placed(out, image[p], at[p], at[p+1])
  }

  /** `out` lists exactly the values present in `image`, in the order of their positions. */
  ghost predicate Lists<T(!new)>(out: seq<T>, image: seq<Option<T>>) {
    exists at :: ListedAt(out, image, at)
  }

  lemma ListsNothing<T(!new)>()
    ensures Lists<T>([], [])
  {
    assert ListedAt<T>([], [], [0]);
  }

  function Append<T>(out: seq<T>, x: Option<T>): seq<T> {
    if x.Some? then out + [x.value] else out
  }

  /** One more round of a filtering loop. */
  lemma ListsStep<T(!new)>(out: seq<T>, image: seq<Option<T>>, x: Option<T>)
    requires Lists(out, image)
    ensures Lists(Append(out, x), image + [x])
  {
    var at :| ListedAt(out, image, at);
    var longer := at + [|Append(out, x)|];
    var more := image + [x];
    forall p | 0 <= p < |more|
      ensures Placed(Append(out, x), more[p], longer[p], longer[p+1])
    {
      if p < |image| {
        assert Placed(out, image[p], at[p], at[p+1]);
      }
    }
    assert ListedAt(Append(out, x), more, longer);
  }

  /** An image fixes the list. */
  lemma {:induction false} ListsUnique<T(!new)>(a: seq<T>, b: seq<T>, image: seq<Option<T>>)
    requires Lists(a, image) && Lists(b, image)
    ensures a == b
    decreases |image|
  {
    hide Lists;
    if image == [] {
      ListsOfNothing(a);
      ListsOfNothing(b);
    } else {
      var a0 := ListsPrefix(a, image);
      var b0 := ListsPrefix(b, image);
      ListsUnique(a0, b0, image[..|image| - 1]);
    }
  }

  lemma ListsOfNothing<T(!new)>(out: seq<T>)
    requires Lists(out, [])
    ensures out == []
  {}

  lemma ListsPrefix<T(!new)>(out: seq<T>, image: seq<Option<T>>) returns (before: seq<T>)
    requires image != [] && Lists(out, image)
    ensures Lists(before, image[..|image| - 1]) && out == Append(before, image[|image| - 1])
  {
    var n := |image| - 1;
    var at :| ListedAt(out, image, at);
    assert Placed(out, image[n], at[n], at[n+1]);
    before := out[..at[n]];
    PositionsGrow(out, image, at, n);
    forall p | 0 <= p < n
      ensures Placed(before, image[..n][p], at[..n+1][p], at[..n+1][p+1])
    {
      assert Placed(out, image[p], at[p], at[p+1]);
    }
    assert ListedAt(before, image[..n], at[..n+1]);
  }

  lemma {:induction false} PositionsGrow<T>(out: seq<T>, image: seq<Option<T>>, at: seq<int>, n: nat)
    requires ListedAt(out, image, at) && n <= |image|
    ensures forall p :: 0 <= p <= n ==> at[p] <= at[n]
  {
    if n > 0 {
      PositionsGrow(out, image, at, n - 1);
      assert Placed(out, image[n-1], at[n-1], at[n]);
    }
  }

  predicate Slice<T(==)>(whole: seq<T>, part: seq<T>, lo: int, hi: int) {
    0 <= lo <= hi <= |whole| && whole[lo..hi] == part
  }

  /** `whole` is cut at these offsets into the parts, in order, with nothing left over. */
  predicate CutAt<T(==)>(whole: seq<T>, parts: seq<seq<T>>, at: seq<int>) {
    && |at| == |parts| + 1 && at[0] == 0 && at[|parts|] == |whole|
    && forall k :: 0 <= k < |parts| ==> Slice(whole, parts[k], at[k], at[k+1])
  }

  ghost predicate Concatenates<T(!new)>(whole: seq<T>, parts: seq<seq<T>>) {
    exists at :: CutAt(whole, parts, at)
  }

  lemma ConcatenatesNothing<T(!new)>()
    ensures Concatenates<T>([], [])
  {
    assert CutAt<T>([], [], [0]);
  }

  /** One more round of a flattening loop. */
  lemma ConcatenatesStep<T(!new)>(whole: seq<T>, parts: seq<seq<T>>, part: seq<T>)
    requires Concatenates(whole, parts)
    ensures Concatenates(whole + part, parts + [part])
  {
    var at :| CutAt(whole, parts, at);
    var longer, more := at + [|whole + part|], parts + [part];
    forall k | 0 <= k < |more|
      ensures Slice(whole + part, more[k], longer[k], longer[k+1])
    {
      if k < |parts| {
        assert Slice(whole, parts[k], at[k], at[k+1]);
        assert (whole + part)[at[k]..at[k+1]] == whole[at[k]..at[k+1]];
      }
    }
    assert CutAt(whole + part, more, longer);
  }
}

/**
 * Order-preserving selection, the shape of every `for x in xs: if keep(x): out.append(x)`
 * loop of the scraper.
 */
module Seqs {

  /** The elements of `s` that satisfy `keep`, in their original order. */
  function Filter<T>(s: seq<T>, keep: T -> bool): (r: seq<T>)
    ensures |r| <= |s|
  {
    if s == [] then []
    else Filter(s[..|s| - 1], keep) + (if keep(s[|s| - 1]) then [s[|s| - 1]] else [])
  }

  /**
   * `idx` lists, in strictly increasing order, exactly the positions of `s` whose
   * element satisfies `keep`: an independent description of an order-preserving filter.
   */
  ghost predicate Selects<T>(s: seq<T>, idx: seq<nat>, keep: T -> bool) {
    && (forall j :: 0 <= j < |idx| ==> idx[j] < |s|)
    && (forall j1, j2 :: 0 <= j1 < j2 < |idx| ==> idx[j1] < idx[j2])
    && (forall k :: 0 <= k < |s| ==> (keep(s[k]) <==> k in idx))
  }

  /**
   * `Filter` keeps precisely the selected positions, in order: its result is `s` read
   * at an increasing sequence of positions that holds every element satisfying `keep`.
   */
  lemma {:induction false} FilterSelects<T>(s: seq<T>, keep: T -> bool) returns (idx: seq<nat>)
    ensures Selects(s, idx, keep)
    ensures |idx| == |Filter(s, keep)|
    ensures forall j :: 0 <= j < |idx| ==> Filter(s, keep)[j] == s[idx[j]]
  {
    if s == [] {
      idx := [];
    } else {
      var n := |s| - 1;
      var prev := FilterSelects(s[..n], keep);
      idx := prev + (if keep(s[n]) then [n] else []);
      SelectsSnoc(s, keep, prev);
      FilterReadsSnoc(s, keep, prev);
    }
  }

  /** Selecting the last element too, when it satisfies `keep`, extends a selection of the rest. */
  lemma SelectsSnoc<T>(s: seq<T>, keep: T -> bool, prev: seq<nat>)
    requires s != [] && Selects(s[..|s| - 1], prev, keep)
    ensures Selects(s, prev + (if keep(s[|s| - 1]) then [|s| - 1] else []), keep)
  {
    var n := |s| - 1;
    var idx := prev + (if keep(s[n]) then [n] else []);
    forall j | 0 <= j < |idx|
      ensures idx[j] < |s|
    {
      if j < |prev| {
        assert idx[j] == prev[j];
      }
    }
    forall j1, j2 | 0 <= j1 < j2 < |idx|
      ensures idx[j1] < idx[j2]
    {
      if j2 == |prev| {
        assert idx[j1] == prev[j1] < n;
      } else {
        assert idx[j1] == prev[j1] && idx[j2] == prev[j2];
      }
    }
    forall k | 0 <= k < |s|
      ensures keep(s[k]) <==> k in idx
    {
      if k < n {
        assert s[k] == s[..n][k];
        assert k in idx <==> k in prev;
      } else {
        assert n !in prev;
      }
    }
  }

  /** Reading `s` at the extended selection gives the filter of `s`. */
  lemma FilterReadsSnoc<T>(s: seq<T>, keep: T -> bool, prev: seq<nat>)
    requires s != [] && |prev| == |Filter(s[..|s| - 1], keep)|
    requires forall j :: 0 <= j < |prev| ==> prev[j] < |s| - 1
    requires forall j :: 0 <= j < |prev| ==> Filter(s[..|s| - 1], keep)[j] == s[..|s| - 1][prev[j]]
    ensures var idx := prev + (if keep(s[|s| - 1]) then [|s| - 1] else []);
            && |idx| == |Filter(s, keep)|
            && forall j :: 0 <= j < |idx| ==> idx[j] < |s| && Filter(s, keep)[j] == s[idx[j]]
  {
    var n := |s| - 1;
    var idx := prev + (if keep(s[n]) then [n] else []);
    assert Filter(s, keep) == Filter(s[..n], keep) + (if keep(s[n]) then [s[n]] else []);
    forall j | 0 <= j < |idx|
      ensures idx[j] < |s| && Filter(s, keep)[j] == s[idx[j]]
    {
      if j < |prev| {
        assert idx[j] == prev[j] && s[prev[j]] == s[..n][prev[j]];
      }
    }
  }

  /** Everything `Filter` keeps is an element of `s` that satisfies `keep`. */
  lemma {:induction false} FilterKeeps<T>(s: seq<T>, keep: T -> bool)
    ensures forall x :: x in Filter(s, keep) ==> x in s && keep(x)
  {
    if s != [] {
      FilterKeeps(s[..|s| - 1], keep);
      assert forall x :: x in s[..|s| - 1] ==> x in s;
    }
  }

  /** Filtering distributes over appending one element, as the filter loops use it. */
  lemma FilterSnoc<T>(s: seq<T>, x: T, keep: T -> bool)
    ensures Filter(s + [x], keep) == Filter(s, keep) + (if keep(x) then [x] else [])
  {
    assert (s + [x])[..|s|] == s;
  }

  /** A weaker condition keeps at least as many elements. */
  lemma {:induction false} FilterLengthMonotone<T>(s: seq<T>, keep: T -> bool, wider: T -> bool)
    requires forall x :: keep(x) ==> wider(x)
    ensures |Filter(s, keep)| <= |Filter(s, wider)|
  {
    if s != [] {
      FilterLengthMonotone(s[..|s| - 1], keep, wider);
    }
  }

  /** `f(1) + f(2) + ... + f(n)`: the results of steps `1..n` concatenated in step order. */
  function Concat<T>(f: nat -> seq<T>, n: nat): seq<T> {
    if n == 0 then [] else Concat(f, n - 1) + f(n)
  }

  /** The results of the earlier steps come first. */
  lemma {:induction false} ConcatPrefix<T>(f: nat -> seq<T>, m: nat, n: nat)
    requires m <= n
    ensures Concat(f, m) <= Concat(f, n)
  {
    if m < n {
      ConcatPrefix(f, m, n - 1);
      var before := Concat(f, n - 1);
      assert before == Concat(f, m) + before[|Concat(f, m)|..];
    }
  }

  /** Steps that agree on `1..n` concatenate to the same sequence. */
  lemma {:induction false} ConcatAgree<T>(f: nat -> seq<T>, g: nat -> seq<T>, n: nat)
    requires forall k :: 1 <= k <= n ==> f(k) == g(k)
    ensures Concat(f, n) == Concat(g, n)
  {
    if n > 0 {
      ConcatAgree(f, g, n - 1);
    }
  }

  /** `f` applied to every element of `s`, in order. */
  function Map<T, U>(s: seq<T>, f: T -> U): (r: seq<U>)
    ensures |r| == |s| && forall j :: 0 <= j < |s| ==> r[j] == f(s[j])
  {
    if s == [] then [] else Map(s[..|s| - 1], f) + [f(s[|s| - 1])]
  }

  /** `[f(x) for x in s if keep(x)]`, built one element at a time as the scraper's loops build it. */
  function FilterMap<T, U>(s: seq<T>, keep: T -> bool, f: T -> U): seq<U> {
    if s == [] then []
    else
      var last := s[|s| - 1];
      FilterMap(s[..|s| - 1], keep, f) + (if keep(last) then [f(last)] else [])
  }

  /** Mapping distributes over appending one element. */
  lemma MapSnoc<T, U>(s: seq<T>, x: T, f: T -> U)
    ensures Map(s + [x], f) == Map(s, f) + [f(x)]
  {
    assert (s + [x])[..|s|] == s;
  }

  /** `[f(s[i], i) for i in range(len(s))]`, built one element at a time. */
  function MapIndexed<T, U>(s: seq<T>, f: (T, nat) -> U): (r: seq<U>)
    ensures |r| == |s|
  {
    if s == [] then [] else MapIndexed(s[..|s| - 1], f) + [f(s[|s| - 1], |s| - 1)]
  }

  /** Element `i` of the result is `f` applied to element `i` and its position. */
  lemma {:induction false} MapIndexedAt<T, U>(s: seq<T>, f: (T, nat) -> U)
    ensures forall i :: 0 <= i < |s| ==> MapIndexed(s, f)[i] == f(s[i], i)
  {
    if s != [] {
      var n := |s| - 1;
      MapIndexedAt(s[..n], f);
      forall i | 0 <= i < n
        ensures MapIndexed(s, f)[i] == f(s[i], i)
      {
        assert s[..n][i] == s[i];
      }
    }
  }

  /** Extending the input by its next element appends that element's image. */
  lemma MapIndexedSnoc<T, U>(s: seq<T>, i: nat, f: (T, nat) -> U)
    requires i < |s|
    ensures MapIndexed(s[..i + 1], f) == MapIndexed(s[..i], f) + [f(s[i], i)]
  {
    assert s[..i + 1][..i] == s[..i];
  }

  /** Selecting and transforming in one pass is transforming what `Filter` selects. */
  lemma {:induction false} FilterMapIsMapFilter<T, U>(s: seq<T>, keep: T -> bool, f: T -> U)
    ensures FilterMap(s, keep, f) == Map(Filter(s, keep), f)
  {
    if s != [] {
      var init := s[..|s| - 1];
      var last := s[|s| - 1];
      FilterMapIsMapFilter(init, keep, f);
      if keep(last) {
        MapSnoc(Filter(init, keep), last, f);
      }
    }
  }
}

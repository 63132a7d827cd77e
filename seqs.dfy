/** The array operations of JavaScript that the core uses: `filter`, `find` and `slice`. */
module Seqs {
  import opened Wrappers

  /** `s.filter(keep)`: the elements satisfying `keep`, in their original order. */
  function Filter<T>(s: seq<T>, keep: T -> bool): (r: seq<T>)
    ensures |r| <= |s|
    ensures forall i :: 0 <= i < |r| ==> r[i] in s && keep(r[i])
    ensures forall i :: 0 <= i < |s| && keep(s[i]) ==> s[i] in r
  {
    if s == [] then []
    else Filter(s[..|s| - 1], keep) + (if keep(s[|s| - 1]) then [s[|s| - 1]] else [])
  }

  /** The ascending positions of the elements of `s` that satisfy `keep`. */
  function KeptIndices<T>(s: seq<T>, keep: T -> bool): (idx: seq<nat>)
    ensures forall k :: 0 <= k < |idx| ==> idx[k] < |s| && keep(s[idx[k]])
    ensures forall k, l :: 0 <= k < l < |idx| ==> idx[k] < idx[l]
    ensures forall i :: 0 <= i < |s| && keep(s[i]) ==> i in idx
  {
    if s == [] then []
    else
      var rest := KeptIndices(s[..|s| - 1], keep);
      if keep(s[|s| - 1]) then rest + [|s| - 1] else rest
  }

  /** `Filter` is order preserving: its k-th element is the k-th kept element of `s`. */
  lemma {:induction false} FilterIsOrderedSelection<T>(s: seq<T>, keep: T -> bool)
    ensures |Filter(s, keep)| == |KeptIndices(s, keep)|
    ensures forall k :: 0 <= k < |Filter(s, keep)| ==> Filter(s, keep)[k] == s[KeptIndices(s, keep)[k]]
  {
    if s != [] {
      var init, last := s[..|s| - 1], s[|s| - 1];
      FilterIsOrderedSelection(init, keep);
      var f, idx := Filter(init, keep), KeptIndices(init, keep);
      assert Filter(s, keep) == f + (if keep(last) then [last] else []);
      assert KeptIndices(s, keep) == idx + (if keep(last) then [|s| - 1] else []);
      forall k | 0 <= k < |f|
        ensures Filter(s, keep)[k] == s[KeptIndices(s, keep)[k]]
      {
        assert Filter(s, keep)[k] == f[k];
        assert KeptIndices(s, keep)[k] == idx[k];
        assert init[idx[k]] == s[idx[k]];
      }
    }
  }

  /** Concatenation is associative; a hint for chains of appends. */
  lemma AppendAssoc<T>(a: seq<T>, b: seq<T>, c: seq<T>)
    ensures a + (b + c) == a + b + c
  {
  }

  /** Filtering distributes over concatenation. */
  lemma {:induction false} FilterAppend<T>(a: seq<T>, b: seq<T>, keep: T -> bool)
    ensures Filter(a + b, keep) == Filter(a, keep) + Filter(b, keep)
    decreases |b|
  {
    if b == [] {
      assert a + b == a;
    } else {
      var b' := b[..|b| - 1];
      assert (a + b)[..|a + b| - 1] == a + b';
      FilterAppend(a, b', keep);
    }
  }

  /** Filtering a sequence with one element in front of it. */
  lemma FilterCons<T>(x: T, s: seq<T>, keep: T -> bool)
    ensures Filter([x] + s, keep) == (if keep(x) then [x] else []) + Filter(s, keep)
  {
    assert [x][..0] == [];
    assert Filter([x], keep) == (if keep(x) then [x] else []);
    FilterAppend([x], s, keep);
  }

  /** Filtering drops nothing outside a slice when nothing outside it passes the test. */
  lemma FilterSlice<T>(s: seq<T>, a: nat, b: nat, keep: T -> bool)
    requires a <= b <= |s|
    requires forall i :: 0 <= i < a ==> !keep(s[i])
    requires forall i :: b <= i < |s| ==> !keep(s[i])
    ensures Filter(s, keep) == Filter(s[a..b], keep)
  {
    FilterDropSuffix(s, b, keep);
    assert s[..b][a..] == s[a..b];
    FilterDropPrefix(s[..b], a, keep);
  }

  lemma FilterDropSuffix<T>(s: seq<T>, b: nat, keep: T -> bool)
    requires b <= |s|
    requires forall i :: b <= i < |s| ==> !keep(s[i])
    ensures Filter(s, keep) == Filter(s[..b], keep)
  {
    var after := s[b..];
    forall i | 0 <= i < |after| ensures !keep(after[i]) {
      assert after[i] == s[b + i];
    }
    FilterNone(after, keep);
    assert s == s[..b] + after;
    FilterAppend(s[..b], after, keep);
  }

  lemma FilterDropPrefix<T>(s: seq<T>, a: nat, keep: T -> bool)
    requires a <= |s|
    requires forall i :: 0 <= i < a ==> !keep(s[i])
    ensures Filter(s, keep) == Filter(s[a..], keep)
  {
    var before := s[..a];
    forall i | 0 <= i < |before| ensures !keep(before[i]) {
      assert before[i] == s[i];
    }
    FilterNone(before, keep);
    assert s == before + s[a..];
    FilterAppend(before, s[a..], keep);
  }

  /** Filtering twice keeps exactly the elements that pass both tests, in order. */
  lemma {:induction false} FilterTwice<T>(s: seq<T>, first: T -> bool, second: T -> bool, both: T -> bool)
    requires forall x :: both(x) == (first(x) && second(x))
    ensures Filter(Filter(s, first), second) == Filter(s, both)
  {
    if s != [] {
      var init, last := s[..|s| - 1], s[|s| - 1];
      FilterTwice(init, first, second, both);
      FilterAppend(Filter(init, first), if first(last) then [last] else [], second);
    }
  }

  /** Filtering with a test every element passes changes nothing. */
  lemma {:induction false} FilterAll<T>(s: seq<T>, keep: T -> bool)
    requires forall i :: 0 <= i < |s| ==> keep(s[i])
    ensures Filter(s, keep) == s
  {
    if s != [] {
      FilterAll(s[..|s| - 1], keep);
    }
  }

  /** Filtering with a test no element passes gives nothing. */
  lemma FilterNone<T>(s: seq<T>, keep: T -> bool)
    requires forall i :: 0 <= i < |s| ==> !keep(s[i])
    ensures Filter(s, keep) == []
  {
  }

  /** The index `s.findIndex(keep)` would report: the first element satisfying `keep`. */
  function FindIndex<T>(s: seq<T>, keep: T -> bool): (r: Option<nat>)
    ensures r.Some? ==> r.value < |s| && keep(s[r.value])
    ensures r.Some? ==> forall j :: 0 <= j < r.value ==> !keep(s[j])
    ensures r.None? ==> forall j :: 0 <= j < |s| ==> !keep(s[j])
  {
    if s == [] then None
    else if keep(s[0]) then Some(0)
    else match FindIndex(s[1..], keep)
      case None => None
      case Some(i) => Some(i + 1)
  }

  /** What `find` returns is the head of what `filter` returns. */
  lemma FindIsFirstOfFilter<T>(s: seq<T>, keep: T -> bool)
    ensures FindIndex(s, keep).None? <==> Filter(s, keep) == []
    ensures FindIndex(s, keep).Some? ==> Filter(s, keep)[0] == s[FindIndex(s, keep).value]
  {
    FilterIsOrderedSelection(s, keep);
    var idx := KeptIndices(s, keep);
    if FindIndex(s, keep).Some? {
      var i := FindIndex(s, keep).value;
      assert i in idx;
      var k :| 0 <= k < |idx| && idx[k] == i;
      assert keep(s[idx[0]]);
      assert idx[0] <= idx[k];
    }
  }

  /** A position as JavaScript's `slice` resolves it: negative counts from the end, then clamped. */
  function SliceBound(n: nat, x: int): (r: nat)
    ensures r <= n
    ensures 0 <= x <= n ==> r == x
    ensures x > n ==> r == n
  {
    if x < 0 then (if n + x < 0 then 0 else n + x)
    else if x > n then n
    else x
  }

  /** `s.slice(start, end)` for integer arguments. */
  function JsSlice<T>(s: seq<T>, start: int, end: int): (r: seq<T>)
    ensures 0 <= start <= end ==> |r| <= end - start
    ensures 0 <= start <= end <= |s| ==> r == s[start..end]
    ensures 0 <= start <= |s| <= end ==> r == s[start..]
    ensures |s| <= start ==> r == []
  {
    var from, to := SliceBound(|s|, start), SliceBound(|s|, end);
    if from <= to then s[from..to] else []
  }
}

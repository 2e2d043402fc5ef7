/**
 * The two list shapes the scrapers build: a filter-and-map over the elements
 * of a page in document order (each `Each` callback that appends to a
 * result slice), and the order-preserving duplicate removal of `funk.Uniq`.
 */
module Collections {
  import opened Wrappers

  /** The values an element contributes: its emitted value, or nothing. */
  function Emitted<T>(o: Option<T>): seq<T>
  {
    if o.Some? then [o.value] else []
  }

  /**
   * What a scan over `items` in order appends: each item that `emit` keeps
   * contributes the value `emit` extracts from it.
   */
  function Collect<R, T>(items: seq<R>, emit: R -> Option<T>): seq<T>
    decreases |items|
  {
    if items == [] then []
    else Collect(items[..|items| - 1], emit) + Emitted(emit(items[|items| - 1]))
  }

  /** The positions of the kept items, in increasing order. */
  function KeptIndices<R, T>(items: seq<R>, emit: R -> Option<T>): seq<nat>
    decreases |items|
  {
    if items == [] then []
    else
      var n := |items| - 1;
      KeptIndices(items[..n], emit) + (if emit(items[n]).Some? then [n] else [])
  }

  /** Scanning one more item extends the scan by what that item emits. */
  lemma CollectSnoc<R, T>(items: seq<R>, i: nat, emit: R -> Option<T>)
    requires i < |items|
    ensures Collect(items[..i + 1], emit) == Collect(items[..i], emit) + Emitted(emit(items[i]))
  {
    assert items[..i + 1][..i] == items[..i];
  }

  /** Scanning two pieces one after the other is scanning their concatenation. */
  lemma {:induction false} CollectAppend<R, T>(a: seq<R>, b: seq<R>, emit: R -> Option<T>)
    ensures Collect(a + b, emit) == Collect(a, emit) + Collect(b, emit)
    decreases |b|
  {
    if b != [] {
      var n := |b| - 1;
      assert (a + b)[..|a + b| - 1] == a + b[..n];
      CollectAppend(a, b[..n], emit);
    } else {
      assert a + b == a;
    }
  }

  /** The k-th value of the scan comes from the k-th kept item. */
  lemma {:induction false} CollectKept<R, T>(items: seq<R>, emit: R -> Option<T>)
    ensures |Collect(items, emit)| == |KeptIndices(items, emit)|
    ensures forall k :: 0 <= k < |KeptIndices(items, emit)| ==>
      KeptIndices(items, emit)[k] < |items| &&
      emit(items[KeptIndices(items, emit)[k]]) == Some(Collect(items, emit)[k])
    decreases |items|
  {
    if items != [] {
      var n := |items| - 1;
      var pre := items[..n];
      CollectKept(pre, emit);
      var out, idx := Collect(items, emit), KeptIndices(items, emit);
      var out0, idx0 := Collect(pre, emit), KeptIndices(pre, emit);
      assert out == out0 + Emitted(emit(items[n]));
      assert idx == idx0 + (if emit(items[n]).Some? then [n] else []);
      forall k | 0 <= k < |idx0|
        ensures idx[k] < |items| && emit(items[idx[k]]) == Some(out[k])
      {
        assert idx[k] == idx0[k] && out[k] == out0[k];
        assert items[idx0[k]] == pre[idx0[k]];
      }
    }
  }

  /** The kept positions are valid and strictly increasing. */
  lemma {:induction false} KeptIndicesIncreasing<R, T>(items: seq<R>, emit: R -> Option<T>)
    ensures forall k :: 0 <= k < |KeptIndices(items, emit)| ==> KeptIndices(items, emit)[k] < |items|
    ensures forall k, l :: 0 <= k < l < |KeptIndices(items, emit)| ==>
      KeptIndices(items, emit)[k] < KeptIndices(items, emit)[l]
    decreases |items|
  {
    if items != [] {
      var n := |items| - 1;
      KeptIndicesIncreasing<R, T>(items[..n], emit);
      var idx, idx0 := KeptIndices(items, emit), KeptIndices(items[..n], emit);
      assert idx == idx0 + (if emit(items[n]).Some? then [n] else []);
      forall k | 0 <= k < |idx0|
        ensures idx[k] == idx0[k] < n
      {
      }
    }
  }

  /** Every position whose item `emit` keeps is among the kept positions. */
  lemma {:induction false} KeptIndicesComplete<R, T>(items: seq<R>, emit: R -> Option<T>)
    ensures forall i :: 0 <= i < |items| && emit(items[i]).Some? ==> i in KeptIndices(items, emit)
    decreases |items|
  {
    if items != [] {
      var n := |items| - 1;
      var pre := items[..n];
      KeptIndicesComplete(pre, emit);
      var idx, idx0 := KeptIndices(items, emit), KeptIndices(pre, emit);
      assert idx == idx0 + (if emit(items[n]).Some? then [n] else []);
      forall i | 0 <= i < n && emit(items[i]).Some?
        ensures i in idx
      {
        assert items[i] == pre[i];
      }
    }
  }

  /**
   * The scan emits one value per kept item, in the items' order: the k-th
   * value comes from the k-th kept item, and every kept item is listed.
   */
  lemma CollectIndexed<R, T>(items: seq<R>, emit: R -> Option<T>)
    ensures |Collect(items, emit)| == |KeptIndices(items, emit)|
    ensures forall k :: 0 <= k < |KeptIndices(items, emit)| ==>
      KeptIndices(items, emit)[k] < |items| &&
      emit(items[KeptIndices(items, emit)[k]]) == Some(Collect(items, emit)[k])
    ensures forall k, l :: 0 <= k < l < |KeptIndices(items, emit)| ==>
      KeptIndices(items, emit)[k] < KeptIndices(items, emit)[l]
    ensures forall i :: 0 <= i < |items| && emit(items[i]).Some? ==> i in KeptIndices(items, emit)
  {
    CollectKept(items, emit);
    KeptIndicesIncreasing(items, emit);
    KeptIndicesComplete(items, emit);
  }

  /** A value is emitted exactly when some item yields it. */
  lemma CollectMember<R, T>(items: seq<R>, emit: R -> Option<T>, x: T)
    ensures x in Collect(items, emit) <==> exists i :: 0 <= i < |items| && emit(items[i]) == Some(x)
  {
    CollectIndexed(items, emit);
    var out, idx := Collect(items, emit), KeptIndices(items, emit);
    if x in out {
      var k :| 0 <= k < |out| && out[k] == x;
      assert emit(items[idx[k]]) == Some(x);
    }
    if exists i :: 0 <= i < |items| && emit(items[i]) == Some(x) {
      var i :| 0 <= i < |items| && emit(items[i]) == Some(x);
      var k :| 0 <= k < |idx| && idx[k] == i;
      assert out[k] == x;
    }
  }

  /** The position of the first occurrence of `x` in `s`. */
  function FirstIndex<T(==)>(s: seq<T>, x: T): (i: nat)
    requires x in s
    ensures i < |s| && s[i] == x
    ensures forall j :: 0 <= j < i ==> s[j] != x
  {
    if s[0] == x then 0 else 1 + FirstIndex(s[1..], x)
  }

  /** Cutting `s` after the first occurrence of `x` does not move that occurrence. */
  lemma FirstIndexInPrefix<T>(s: seq<T>, m: nat, x: T)
    requires m <= |s| && x in s[..m]
    ensures FirstIndex(s[..m], x) == FirstIndex(s, x)
  {
    var b := FirstIndex(s[..m], x);
    var c := FirstIndex(s, x);
    assert s[b] == s[..m][b] == x;
    forall j | 0 <= j < b
      ensures s[j] != x
    {
      assert s[j] == s[..m][j];
    }
    assert !(c < b);
    assert !(b < c);
  }

  /** No value appears twice. */
  predicate NoDuplicates<T(==)>(s: seq<T>)
  {
    forall i, j :: 0 <= i < j < |s| ==> s[i] != s[j]
  }

  /** `funk.Uniq`: each element of `s` at its first occurrence, in order. */
  function Uniq<T(==)>(s: seq<T>): (r: seq<T>)
    ensures |r| <= |s|
    ensures forall x :: x in r ==> x in s
    decreases |s|
  {
    if s == [] then []
    else
      var n := |s| - 1;
      var u := Uniq(s[..n]);
      if s[n] in u then u else u + [s[n]]
  }

  /** An immediate repetition is dropped and a new value kept. */
  lemma UniqRepeatedFirst<T>(a: T, b: T)
    requires a != b
    ensures Uniq([a, a, b]) == [a, b]
  {
    var s := [a, a, b];
    assert s[..2] == [a, a] && s[..2][..1] == [a] && s[..1][..0] == [];
    assert Uniq(s[..1]) == [a];
    assert Uniq(s[..2]) == [a];
  }

  /**
   * Uniq keeps exactly the elements of `s`, each once, ordered by their
   * first occurrence in `s`.
   */
  lemma UniqSpec<T(!new)>(s: seq<T>)
    ensures forall x :: x in Uniq(s) <==> x in s
    ensures NoDuplicates(Uniq(s))
    ensures forall i, j :: 0 <= i < j < |Uniq(s)| ==> FirstIndex(s, Uniq(s)[i]) < FirstIndex(s, Uniq(s)[j])
  {
    UniqMembers(s);
    UniqNoDuplicates(s);
    UniqOrdered(s);
  }

  /** Every element of `s` is kept. */
  lemma {:induction false} UniqMembers<T(!new)>(s: seq<T>)
    ensures forall x :: x in s ==> x in Uniq(s)
    decreases |s|
  {
    if s != [] {
      var n := |s| - 1;
      UniqMembers(s[..n]);
      assert s == s[..n] + [s[n]];
    }
  }

  /** No element is kept twice. */
  lemma {:induction false} UniqNoDuplicates<T>(s: seq<T>)
    ensures NoDuplicates(Uniq(s))
    decreases |s|
  {
    if s != [] {
      var n := |s| - 1;
      var u := Uniq(s[..n]);
      UniqNoDuplicates(s[..n]);
      if s[n] !in u {
        var r := u + [s[n]];
        forall i, j | 0 <= i < j < |r| ensures r[i] != r[j] {
          if j == |r| - 1 {
            assert r[i] in u;
          }
        }
      }
    }
  }

  /** The kept elements are in the order of their first occurrences. */
  lemma {:induction false} UniqOrdered<T(!new)>(s: seq<T>)
    ensures forall i, j :: 0 <= i < j < |Uniq(s)| ==> FirstIndex(s, Uniq(s)[i]) < FirstIndex(s, Uniq(s)[j])
    decreases |s|
  {
    if s != [] {
      var n := |s| - 1;
      var u := Uniq(s[..n]);
      UniqOrdered(s[..n]);
      assert s == s[..n] + [s[n]];
      forall y | y in u ensures FirstIndex(s, y) == FirstIndex(s[..n], y) {
        FirstIndexInPrefix(s, n, y);
      }
      if s[n] !in u {
        var r := u + [s[n]];
        UniqMembers(s[..n]);
        assert FirstIndex(s, s[n]) == n;
        forall i, j | 0 <= i < j < |r| ensures FirstIndex(s, r[i]) < FirstIndex(s, r[j]) {
          assert r[i] in u;
          if j < |r| - 1 {
            assert r[j] in u;
          }
        }
      }
    }
  }

  /** A sequence without duplicates is left as it is. */
  lemma {:induction false} UniqOfDistinct<T(!new)>(s: seq<T>)
    requires NoDuplicates(s)
    ensures Uniq(s) == s
    decreases |s|
  {
    if s != [] {
      var n := |s| - 1;
      UniqOfDistinct(s[..n]);
      assert s[n] !in s[..n];
      assert Uniq(s[..n]) == s[..n];
      assert s[..n] + [s[n]] == s;
    }
  }
}

/**
 * The array operations the calendar script relies on, over Dafny sequences:
 * `Array.prototype.filter`, `Array.prototype.map`, the removal of `null`
 * results, and the concatenation of table rows read in order.
 */
module Sequences {

  datatype Option<+T> = None | Some(value: T)

  /** `s.filter(p)`: the elements satisfying `p`, in their original order. */
  function Filter<T(==,!new)>(s: seq<T>, p: T -> bool): (r: seq<T>)
    ensures |r| <= |s|
    // every element is kept with all its duplicates, or dropped entirely
    ensures forall x :: multiset(r)[x] == if p(x) then multiset(s)[x] else 0
    ensures forall x :: x in r <==> x in s && p(x)
    decreases |s|
  {
    if |s| == 0 then []
    else
      assert s == [s[0]] + s[1..];
      if p(s[0]) then [s[0]] + Filter(s[1..], p) else Filter(s[1..], p)
  }

  /** Filtering commutes with concatenation: the order of the input is kept. */
  lemma {:induction false} FilterAppend<T(!new)>(a: seq<T>, b: seq<T>, p: T -> bool)
    ensures Filter(a + b, p) == Filter(a, p) + Filter(b, p)
    decreases |a|
  {
    if |a| == 0 {
      assert a + b == b;
    } else {
      assert (a + b)[0] == a[0];
      assert (a + b)[1..] == a[1..] + b;
      FilterAppend(a[1..], b, p);
    }
  }

  lemma FilterKeepsAll<T(!new)>(s: seq<T>, p: T -> bool)
    requires forall i :: 0 <= i < |s| ==> p(s[i])
    ensures Filter(s, p) == s
    decreases |s|
  {
    if |s| > 0 {
      FilterKeepsAll(s[1..], p);
    }
  }

  lemma FilterDropsAll<T(!new)>(s: seq<T>, p: T -> bool)
    requires forall i :: 0 <= i < |s| ==> !p(s[i])
    ensures Filter(s, p) == []
    decreases |s|
  {
    if |s| > 0 {
      FilterDropsAll(s[1..], p);
    }
  }

  /** `s.map(f)`. */
  function MapSeq<A, B>(s: seq<A>, f: A -> B): seq<B>
  {
    seq(|s|, i requires 0 <= i < |s| => f(s[i]))
  }

  lemma MapAppend<A, B>(a: seq<A>, b: seq<A>, f: A -> B)
    ensures MapSeq(a + b, f) == MapSeq(a, f) + MapSeq(b, f)
  {
  }

  /** `s.filter(x => x !== null)`, keeping the values of the non-null entries. */
  function NonNull<T>(s: seq<Option<T>>): (r: seq<T>)
    ensures |r| <= |s|
    decreases |s|
  {
    if |s| == 0 then []
    else (if s[0].Some? then [s[0].value] else []) + NonNull(s[1..])
  }

  lemma {:induction false} NonNullAppend<T>(a: seq<Option<T>>, b: seq<Option<T>>)
    ensures NonNull(a + b) == NonNull(a) + NonNull(b)
    decreases |a|
  {
    if |a| == 0 {
      assert a + b == b;
    } else {
      assert (a + b)[0] == a[0];
      assert (a + b)[1..] == a[1..] + b;
      NonNullAppend(a[1..], b);
    }
  }

  /** The positions of the elements satisfying `p`, in increasing order. */
  function Indices<T>(s: seq<T>, p: T -> bool): (idx: seq<nat>)
    ensures |idx| <= |s|
    decreases |s|
  {
    if |s| == 0 then []
    else
      var n := |s| - 1;
      Indices(s[..n], p) + (if p(s[n]) then [n] else [])
  }

  /** `Indices` lists every position satisfying `p` once, in increasing order, and nothing else. */
  lemma {:induction false} IndicesSpec<T>(s: seq<T>, p: T -> bool)
    ensures forall k :: 0 <= k < |Indices(s, p)| ==> Indices(s, p)[k] < |s| && p(s[Indices(s, p)[k]])
    ensures forall k, l :: 0 <= k < l < |Indices(s, p)| ==> Indices(s, p)[k] < Indices(s, p)[l]
    ensures forall i :: 0 <= i < |s| && p(s[i]) ==> i in Indices(s, p)
    decreases |s|
  {
    if |s| > 0 {
      var n := |s| - 1;
      var front := s[..n];
      IndicesSpec(front, p);
      var prev := Indices(front, p);
      var idx := Indices(s, p);
      assert idx == prev + (if p(s[n]) then [n] else []);
      forall k | 0 <= k < |prev|
        ensures idx[k] == prev[k] && prev[k] < n && s[prev[k]] == front[prev[k]]
      {
      }
      forall i | 0 <= i < |s| && p(s[i])
        ensures i in idx
      {
        if i < n {
          assert front[i] == s[i];
          assert i in prev;
        } else {
          assert idx[|idx| - 1] == n;
        }
      }
    }
  }

  /**
   * A filter, then a map to optional values, then the removal of the missing
   * ones: result `k` is the value at the `k`-th position where the element is
   * kept and maps to a value.
   */
  lemma {:induction false} FilterMapIndices<A(!new), B>(s: seq<A>, keep: A -> bool, f: A -> Option<B>, p: A -> bool)
    requires forall x :: p(x) == (keep(x) && f(x).Some?)
    ensures |NonNull(MapSeq(Filter(s, keep), f))| == |Indices(s, p)|
    ensures forall k :: 0 <= k < |Indices(s, p)| ==>
      Indices(s, p)[k] < |s| && f(s[Indices(s, p)[k]]).Some? && NonNull(MapSeq(Filter(s, keep), f))[k] == f(s[Indices(s, p)[k]]).value
    decreases |s|
  {
    IndicesSpec(s, p);
    if |s| > 0 {
      var n := |s| - 1;
      var front := s[..n];
      assert s == front + [s[n]];
      FilterMapIndices(front, keep, f, p);
      FilterAppend(front, [s[n]], keep);
      MapAppend(Filter(front, keep), Filter([s[n]], keep), f);
      NonNullAppend(MapSeq(Filter(front, keep), f), MapSeq(Filter([s[n]], keep), f));
      assert [s[n]][1..] == [];
      IndicesSpec(front, p);
      var idx := Indices(s, p);
      var prev := Indices(front, p);
      var r := NonNull(MapSeq(Filter(s, keep), f));
      var rf := NonNull(MapSeq(Filter(front, keep), f));
      var last := NonNull(MapSeq(Filter([s[n]], keep), f));
      assert r == rf + last;
      if p(s[n]) {
        assert Filter([s[n]], keep) == [s[n]];
        assert MapSeq([s[n]], f) == [f(s[n])];
        assert [f(s[n])][1..] == [];
        assert last == [f(s[n]).value];
      } else if keep(s[n]) {
        assert Filter([s[n]], keep) == [s[n]];
        assert MapSeq([s[n]], f) == [f(s[n])];
        assert [f(s[n])][1..] == [];
        assert last == [];
      } else {
        assert Filter([s[n]], keep) == [];
        assert last == [];
      }
      forall k | 0 <= k < |idx|
        ensures idx[k] < |s| && f(s[idx[k]]).Some? && r[k] == f(s[idx[k]]).value
      {
        if k < |prev| {
          assert idx[k] == prev[k];
          assert s[idx[k]] == front[prev[k]];
        }
      }
    }
  }

  /** The concatenation of rows, in reading order. */
  function Flatten<T>(rows: seq<seq<T>>): seq<T>
    decreases |rows|
  {
    if |rows| == 0 then [] else rows[0] + Flatten(rows[1..])
  }

  /** In a table of rows of seven, cell `i` of the concatenation is cell `i % 7` of row `i / 7`. */
  lemma {:induction false} FlattenWeeks<T>(rows: seq<seq<T>>)
    requires forall w :: 0 <= w < |rows| ==> |rows[w]| == 7
    ensures |Flatten(rows)| == 7 * |rows|
    ensures forall i :: 0 <= i < 7 * |rows| ==> Flatten(rows)[i] == rows[i / 7][i % 7]
    decreases |rows|
  {
    if |rows| > 0 {
      FlattenWeeks(rows[1..]);
      var f := Flatten(rows);
      assert f == rows[0] + Flatten(rows[1..]);
      forall i | 0 <= i < 7 * |rows|
        ensures f[i] == rows[i / 7][i % 7]
      {
        if i >= 7 {
          assert f[i] == Flatten(rows[1..])[i - 7];
          assert (i - 7) / 7 == i / 7 - 1 && (i - 7) % 7 == i % 7;
        }
      }
    }
  }
}

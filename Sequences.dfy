/** Facts about sequences that hold whatever their elements are: no element
    repeated, and one sequence appearing as a contiguous piece of another. */
module Sequences {

  /** No element occurs twice. */
  ghost predicate Distinct<T>(s: seq<T>) {
    forall i, j :: 0 <= i < j < |s| ==> s[i] != s[j]
  }

  /** `ms` appears in `ns` as the piece starting at position `o`. */
  ghost predicate OccursAt<T>(ms: seq<T>, ns: seq<T>, o: int) {
    0 <= o && o + |ms| <= |ns| && forall i :: 0 <= i < |ms| ==> ns[o + i] == ms[i]
  }

  /** The elements of `s`, as a set. */
  ghost function Elements<T>(s: seq<T>): set<T> {
    set x | x in s
  }

  /** The elements of `a + [x] + b` are those of `a`, `x` and those of `b`. */
  lemma ElementsAround<T>(a: seq<T>, x: T, b: seq<T>)
    ensures Elements(a + [x] + b) == Elements(a) + {x} + Elements(b)
    ensures Elements<T>([]) == {}
  {
  }

  /** Two sequences without repeats, sharing no element, with a middle
      element found in neither, form a sequence without repeats. */
  lemma DistinctAround<T>(a: seq<T>, x: T, b: seq<T>)
    requires Distinct(a) && Distinct(b)
    requires x !in Elements(a) && x !in Elements(b) && Elements(a) !! Elements(b)
    ensures Distinct(a + [x] + b)
  {
    var s := a + [x] + b;
    forall i, j | 0 <= i < j < |s| ensures s[i] != s[j] {
      if j < |a| {
        assert s[i] == a[i] && s[j] == a[j];
      } else if i < |a| {
        assert s[i] == a[i] && a[i] in Elements(a);
        if j > |a| {
          assert s[j] == b[j - |a| - 1] && b[j - |a| - 1] in Elements(b);
        }
      } else if i == |a| {
        assert s[j] == b[j - |a| - 1] && b[j - |a| - 1] in Elements(b);
      } else {
        assert s[i] == b[i - |a| - 1] && s[j] == b[j - |a| - 1];
      }
    }
  }

  /** Where `ms` occurs in `ns` at `o`, its `j`-th element is the
      `(o + j)`-th of `ns`. */
  lemma OccursIndex<T>(ms: seq<T>, ns: seq<T>, o: int, j: int)
    requires OccursAt(ms, ns, o) && 0 <= j < |ms|
    ensures 0 <= o + j < |ns| && ns[o + j] == ms[j]
  {
  }

  /** Indexing into the left part of `a + [x] + b`. */
  lemma IndexLeft<T>(a: seq<T>, x: T, b: seq<T>, j: int)
    requires 0 <= j < |a|
    ensures j < |a + [x] + b| && (a + [x] + b)[j] == a[j]
  {
  }

  /** Indexing into the right part of `a + [x] + b`. */
  lemma IndexRight<T>(a: seq<T>, x: T, b: seq<T>, j: int)
    requires 0 <= j < |b|
    ensures |a| + 1 + j < |a + [x] + b| && (a + [x] + b)[|a| + 1 + j] == b[j]
  {
  }

  /** A piece of `b` stays in place when `[x] + c` is appended. */
  lemma OccursBefore<T>(ms: seq<T>, b: seq<T>, o: int, x: T, c: seq<T>)
    requires OccursAt(ms, b, o)
    ensures OccursAt(ms, b + [x] + c, o)
  {
    forall i | 0 <= i < |ms| ensures (b + [x] + c)[o + i] == ms[i] {
      assert (b + [x] + c)[o + i] == b[o + i];
    }
  }

  /** A piece of `b` moves by `|a| + 1` when `a + [x]` is prepended. */
  lemma OccursAfter<T>(ms: seq<T>, b: seq<T>, o: int, a: seq<T>, x: T)
    requires OccursAt(ms, b, o)
    ensures OccursAt(ms, a + [x] + b, |a| + 1 + o)
  {
    forall i | 0 <= i < |ms| ensures (a + [x] + b)[|a| + 1 + o + i] == ms[i] {
      assert (a + [x] + b)[|a| + 1 + o + i] == b[o + i];
    }
  }

  /** The last element of a non-empty sequence. */
  ghost function Last<T>(s: seq<T>): T
    requires s != []
  {
    s[|s| - 1]
  }

  /** `a + [x] + b` ends as `b` does when `b` is non-empty, and with `x`
      otherwise. */
  lemma LastAround<T>(a: seq<T>, x: T, b: seq<T>)
    ensures Last(a + [x] + b) == if b == [] then x else Last(b)
  {
  }

  /** `a + [x] + b` starts as `a` does when `a` is non-empty, and with `x`
      otherwise. */
  lemma FirstAround<T>(a: seq<T>, x: T, b: seq<T>)
    ensures (a + [x] + b)[0] == if a == [] then x else a[0]
  {
  }

  /** Positions in `a + [x] + b` next to `x`. */
  lemma NeighboursAround<T>(a: seq<T>, x: T, b: seq<T>)
    ensures (a + [x] + b)[|a|] == x
    ensures b != [] ==> (a + [x] + b)[|a| + 1] == b[0]
    ensures a != [] ==> (a + [x] + b)[|a| - 1] == a[|a| - 1]
  {
  }
}

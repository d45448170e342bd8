/** The in-order value sequence of a binary search tree, on its own:
    what "sorted" means, where an inserted value lands, which values a
    closed range selects, and how the sequence is rendered as text. */
module InorderSpec {

  /** Non-decreasing order: the order an in-order walk of a valid tree yields. */
  ghost predicate Sorted(s: seq<int>) {
    forall i, j :: 0 <= i < j < |s| ==> s[i] <= s[j]
  }

  /** `s` with `x` placed just before the first element strictly greater than
      `x`. A value equal to ones already present lands after them, as the
      tree's insertion sends equal values into the right subtree. */
  function InsertSorted(s: seq<int>, x: int): (r: seq<int>)
  {
    if s == [] || x < s[0] then [x] + s
    else
      assert s == [s[0]] + s[1..];
      [s[0]] + InsertSorted(s[1..], x)
  }

  /** Insertion adds exactly one occurrence of `x` and keeps every other value. */
  lemma {:induction false} InsertSortedPermutes(s: seq<int>, x: int)
    ensures multiset(InsertSorted(s, x)) == multiset(s) + multiset{x}
  {
    if s == [] || x < s[0] {
    } else {
      InsertSortedPermutes(s[1..], x);
      assert s == [s[0]] + s[1..];
    }
  }

  /** The values present after insertion are those present before, and `x`. */
  lemma InsertSortedMembers(s: seq<int>, x: int)
    ensures forall v :: v in InsertSorted(s, x) <==> v in s || v == x
  {
    InsertSortedPermutes(s, x);
    forall v ensures v in InsertSorted(s, x) <==> v in s || v == x {
      assert v in InsertSorted(s, x) <==> v in multiset(InsertSorted(s, x));
      assert v in s <==> v in multiset(s);
    }
  }

  /** Insertion keeps a sorted sequence sorted. */
  lemma {:induction false} InsertSortedSorted(s: seq<int>, x: int)
    requires Sorted(s)
    ensures Sorted(InsertSorted(s, x))
  {
    if s == [] || x < s[0] {
    } else {
      InsertSortedSorted(s[1..], x);
      var r := InsertSorted(s, x);
      var tail := InsertSorted(s[1..], x);
      assert r == [s[0]] + tail;
      InsertSortedMembers(s[1..], x);
      forall j | 0 <= j < |tail| ensures s[0] <= tail[j] {
        assert tail[j] in tail;
      }
    }
  }

  /** Every element of `s` lies below `b`. */
  ghost predicate AllBelow(s: seq<int>, b: int) {
    forall i :: 0 <= i < |s| ==> s[i] < b
  }

  /** Every element of `s` is at least `b`. */
  ghost predicate AllAtLeast(s: seq<int>, b: int) {
    forall i :: 0 <= i < |s| ==> b <= s[i]
  }

  /** Every element of `s` is at most `b`. */
  ghost predicate AllAtMost(s: seq<int>, b: int) {
    forall i :: 0 <= i < |s| ==> s[i] <= b
  }

  /** A slice whose values are all at most `b` stays so when it takes in
      one more value that is at most `b`. */
  lemma AtMostExtend(s: seq<int>, a: int, k: int, b: int)
    requires 0 <= a <= k < |s| && AllAtMost(s[a..k], b) && s[k] <= b
    ensures AllAtMost(s[a..k + 1], b)
  {
    assert s[a..k + 1] == s[a..k] + [s[k]];
  }

  /** A sequence below `d`, then `d`, then a sequence at least `d`, is sorted
      when both parts are: the shape of a valid tree's in-order walk. */
  lemma SortedAround(a: seq<int>, d: int, b: seq<int>)
    requires Sorted(a) && Sorted(b) && AllBelow(a, d) && AllAtLeast(b, d)
    ensures Sorted(a + [d] + b)
  {
  }

  /** A value at least `b` everywhere means no value below `b`. */
  lemma NotInAtLeast(s: seq<int>, b: int, x: int)
    requires AllAtLeast(s, b) && x < b
    ensures x !in s
  {
  }

  /** A value below `b` everywhere means no value at or above `b`. */
  lemma NotInBelow(s: seq<int>, b: int, x: int)
    requires AllBelow(s, b) && b <= x
    ensures x !in s
  {
  }

  /** Inserting a value below `b` into values below `b` keeps them below `b`. */
  lemma InsertSortedBelow(s: seq<int>, x: int, b: int)
    requires AllBelow(s, b) && x < b
    ensures AllBelow(InsertSorted(s, x), b)
  {
    var r := InsertSorted(s, x);
    InsertSortedMembers(s, x);
    forall i | 0 <= i < |r| ensures r[i] < b {
      assert r[i] in r;
      if r[i] != x {
        var j :| 0 <= j < |s| && s[j] == r[i];
      }
    }
  }

  /** Inserting a value at least `b` into values at least `b` keeps them so. */
  lemma InsertSortedAtLeast(s: seq<int>, x: int, b: int)
    requires AllAtLeast(s, b) && b <= x
    ensures AllAtLeast(InsertSorted(s, x), b)
  {
    var r := InsertSorted(s, x);
    InsertSortedMembers(s, x);
    forall i | 0 <= i < |r| ensures b <= r[i] {
      assert r[i] in r;
      if r[i] != x {
        var j :| 0 <= j < |s| && s[j] == r[i];
      }
    }
  }

  /** Values below `b`, followed by `b`, are all at most any `x >= b`. */
  lemma AtMostPrefix(s: seq<int>, b: int, x: int)
    requires AllBelow(s, b) && b <= x
    ensures forall v :: v in s + [b] ==> v <= x
  {
  }

  /** Values that are all at most `x` are passed over: `x` goes behind them. */
  lemma {:induction false} InsertSortedAfterPrefix(a: seq<int>, b: seq<int>, x: int)
    requires forall v :: v in a ==> v <= x
    ensures InsertSorted(a + b, x) == a + InsertSorted(b, x)
  {
    if a != [] {
      assert (a + b)[0] == a[0] && (a + b)[1..] == a[1..] + b;
      assert a[0] in a;
      forall v | v in a[1..] ensures v <= x {
        var j :| 0 <= j < |a[1..]| && a[1..][j] == v;
        assert a[1 + j] == v && a[1 + j] in a;
      }
      InsertSortedAfterPrefix(a[1..], b, x);
      calc {
        InsertSorted(a + b, x);
        [a[0]] + InsertSorted(a[1..] + b, x);
        [a[0]] + (a[1..] + InsertSorted(b, x));
        { assert a == [a[0]] + a[1..]; }
        a + InsertSorted(b, x);
      }
    } else {
      assert a + b == b;
    }
  }

  /** Insertion puts `x` after the values at most `x` and before the
      first value greater than `x`. */
  lemma InsertSortedBetween(a: seq<int>, b: seq<int>, x: int)
    requires forall v :: v in a ==> v <= x
    requires b == [] || x < b[0]
    ensures InsertSorted(a + b, x) == a + [x] + b
  {
    InsertSortedAfterPrefix(a, b, x);
    assert a + ([x] + b) == a + [x] + b;
  }

  /** A sorted sequence is determined by its values: two sorted sequences
      holding the same values, with the same multiplicities, are equal. */
  lemma {:induction false} SortedUnique(a: seq<int>, b: seq<int>)
    requires Sorted(a) && Sorted(b) && multiset(a) == multiset(b)
    ensures a == b
    decreases |a|
  {
    assert |a| == |multiset(a)| == |multiset(b)| == |b|;
    if a != [] {
      HeadIsLeast(a, b[0]);
      HeadIsLeast(b, a[0]);
      assert a[0] == b[0];
      assert multiset(a) == multiset{a[0]} + multiset(a[1..]) by { assert a == [a[0]] + a[1..]; }
      assert multiset(b) == multiset{b[0]} + multiset(b[1..]) by { assert b == [b[0]] + b[1..]; }
      assert multiset(a[1..]) == multiset(a) - multiset{a[0]};
      assert multiset(b[1..]) == multiset(b) - multiset{b[0]};
      SortedUnique(a[1..], b[1..]);
    }
  }

  /** The first value of a sorted sequence is at most each of its values. */
  lemma HeadIsLeast(s: seq<int>, v: int)
    requires Sorted(s) && v in multiset(s)
    ensures s != [] && s[0] <= v
  {
    var i :| 0 <= i < |s| && s[i] == v;
  }

  /** A value smaller than `y` is placed before `y`, whatever follows `y`. */
  lemma {:induction false} InsertSortedBefore(a: seq<int>, y: int, c: seq<int>, x: int)
    requires x < y
    ensures InsertSorted(a + [y] + c, x) == InsertSorted(a, x) + [y] + c
  {
    if a == [] {
      assert a + [y] + c == [y] + c;
    } else if x < a[0] {
    } else {
      assert (a + [y] + c)[1..] == a[1..] + [y] + c;
      InsertSortedBefore(a[1..], y, c, x);
    }
  }

  /** The distinct values of `s` that lie in the closed range [lo, hi]. */
  function InRange(s: seq<int>, lo: int, hi: int): set<int> {
    set v | v in s && lo <= v <= hi
  }

  /** Selecting a range distributes over concatenation. */
  lemma InRangeConcat(a: seq<int>, b: seq<int>, lo: int, hi: int)
    ensures InRange(a + b, lo, hi) == InRange(a, lo, hi) + InRange(b, lo, hi)
  {
  }

  /** Extending a window of `s` by one element adds that element when it is
      in range. */
  lemma InRangeExtend(s: seq<int>, a: int, b: int, lo: int, hi: int)
    requires 0 <= a <= b < |s|
    ensures InRange(s[a..b + 1], lo, hi) == InRange(s[a..b], lo, hi) + (if lo <= s[b] <= hi then {s[b]} else {})
  {
    assert s[a..b + 1] == s[a..b] + [s[b]];
    InRangeConcat(s[a..b], [s[b]], lo, hi);
  }

  /** Values that are all below `lo` select nothing. */
  lemma InRangeBelow(s: seq<int>, b: int, lo: int, hi: int)
    requires AllBelow(s, b) && b <= lo
    ensures InRange(s, lo, hi) == {}
  {
    forall v | v in s ensures v < lo {
      var i :| 0 <= i < |s| && s[i] == v;
    }
  }

  /** Values that are all above `hi` select nothing. */
  lemma InRangeAbove(s: seq<int>, b: int, lo: int, hi: int)
    requires AllAtLeast(s, b) && hi < b
    ensures InRange(s, lo, hi) == {}
  {
    forall v | v in s ensures hi < v {
      var i :| 0 <= i < |s| && s[i] == v;
    }
  }

  /** A prefix whose values are all below `lo` may be skipped. */
  lemma InRangeSkip(s: seq<int>, k: int, lo: int, hi: int)
    requires 0 <= k <= |s| && forall i :: 0 <= i < k ==> s[i] < lo
    ensures InRange(s[k..], lo, hi) == InRange(s, lo, hi)
  {
    assert s == s[..k] + s[k..];
    InRangeConcat(s[..k], s[k..], lo, hi);
    InRangeBelow(s[..k], lo, lo, hi);
  }

  /** In a sorted sequence, a scan from `a` that stops at the end or at the
      first value above `hi` has seen every value in range from `a` on. */
  lemma InRangeStop(s: seq<int>, a: int, k: int, lo: int, hi: int)
    requires Sorted(s) && 0 <= a <= k <= |s| && (k < |s| ==> hi < s[k])
    ensures InRange(s[a..k], lo, hi) == InRange(s[a..], lo, hi)
  {
    if k < |s| {
      assert s[a..] == s[a..k] + s[k..];
      InRangeConcat(s[a..k], s[k..], lo, hi);
      assert AllAtLeast(s[k..], s[k]) by {
        forall i | 0 <= i < |s[k..]| ensures s[k] <= s[k..][i] {
          assert s[k..][i] == s[k + i];
        }
      }
      InRangeAbove(s[k..], s[k], lo, hi);
    } else {
      assert s[a..k] == s[a..];
    }
  }

  /** Position `k` of `s` splits it at `x`: everything before it is below `x`
      and everything after it is at least `x`. */
  ghost predicate SplitsAt(s: seq<int>, k: int, x: int) {
    && 0 <= k < |s|
    && (forall i :: 0 <= i < k ==> s[i] < x)
    && (forall i :: k < i < |s| ==> x <= s[i])
  }

  /** The middle of `a + [d] + b` splits it at `x` when `d` is `x`, or when
      the side on which `x` would lie is empty. */
  lemma SplitsAtMiddle(a: seq<int>, d: int, b: seq<int>, x: int)
    requires AllBelow(a, d) && AllAtLeast(b, d)
    requires d == x || (d < x && b == []) || (x < d && a == [])
    ensures SplitsAt(a + [d] + b, |a|, x)
  {
  }

  /** A split of the part right of `d < x` is a split of the whole. */
  lemma SplitsOnRight(a: seq<int>, d: int, b: seq<int>, x: int, k: int)
    requires AllBelow(a, d) && d < x && SplitsAt(b, k, x)
    ensures SplitsAt(a + [d] + b, |a| + 1 + k, x)
  {
    var s := a + [d] + b;
    forall i | 0 <= i < |a| + 1 + k ensures s[i] < x {
      if i > |a| {
        assert s[i] == b[i - |a| - 1];
      }
    }
    forall i | |a| + 1 + k < i < |s| ensures x <= s[i] {
      assert s[i] == b[i - |a| - 1];
    }
  }

  /** A split of the part left of `d > x` is a split of the whole. */
  lemma SplitsOnLeft(a: seq<int>, d: int, b: seq<int>, x: int, k: int)
    requires AllAtLeast(b, d) && x < d && SplitsAt(a, k, x)
    ensures SplitsAt(a + [d] + b, k, x)
  {
    var s := a + [d] + b;
    forall i | k < i < |s| ensures x <= s[i] {
      if i > |a| {
        assert s[i] == b[i - |a| - 1];
      }
    }
  }

  /** The last of values below `d`, `d`, and values at least `d` whose own
      last is their maximum, is the maximum of all. */
  lemma LastIsMax(a: seq<int>, d: int, b: seq<int>)
    requires AllBelow(a, d) && AllAtLeast(b, d)
    requires b != [] ==> forall v :: v in b ==> v <= b[|b| - 1]
    ensures forall v :: v in a + [d] + b ==> v <= (a + [d] + b)[|a + [d] + b| - 1]
  {
    var s := a + [d] + b;
    forall v | v in s ensures v <= s[|s| - 1] {
      var i :| 0 <= i < |s| && s[i] == v;
      if i < |a| {
        if b != [] {
          assert b[|b| - 1] in b;
        }
      } else if i > |a| {
        assert s[i] == b[i - |a| - 1] && s[i] in b;
      }
    }
  }

  /** Decimal digit `d` as a character. */
  function DigitChar(d: nat): char
    requires d < 10
  {
    "0123456789"[d]
  }

  /** Decimal rendering of a natural number, without leading zeros. */
  function ShowNat(n: nat): string
    decreases n
  {
    if n < 10 then [DigitChar(n)] else ShowNat(n / 10) + [DigitChar(n % 10)]
  }

  /** Decimal rendering of an integer, with a leading '-' when negative. */
  function Show(i: int): string {
    if i < 0 then "-" + ShowNat(-i) else ShowNat(i)
  }

  /** The values of `s` rendered and joined with ", ". */
  function Render(s: seq<int>): string {
    if |s| == 0 then ""
    else if |s| == 1 then Show(s[0])
    else Show(s[0]) + ", " + Render(s[1..])
  }

  /** Rendering two non-empty pieces puts one ", " between them. */
  lemma {:induction false} RenderConcat(a: seq<int>, b: seq<int>)
    requires a != [] && b != []
    ensures Render(a + b) == Render(a) + ", " + Render(b)
  {
    assert (a + b)[0] == a[0];
    if |a| == 1 {
      assert (a + b)[1..] == b;
    } else {
      assert (a + b)[1..] == a[1..] + b;
      RenderConcat(a[1..], b);
    }
  }

  /** Rendering a left part, a middle value and a right part: separators
      appear only next to a part that is present. */
  lemma RenderAround(a: seq<int>, d: int, b: seq<int>)
    ensures Render(a + [d] + b)
         == (if a == [] then "" else Render(a) + ", ") + Show(d)
            + (if b == [] then "" else ", " + Render(b))
  {
    assert Render([d]) == Show(d);
    if a == [] && b == [] {
      assert a + [d] + b == [d];
    } else if a == [] {
      assert a + [d] + b == [d] + b;
      RenderConcat([d], b);
    } else if b == [] {
      assert a + [d] + b == a + [d];
      RenderConcat(a, [d]);
    } else {
      RenderBetween(a, d, b);
    }
  }

  /** `RenderAround` when both parts are present. */
  lemma RenderBetween(a: seq<int>, d: int, b: seq<int>)
    requires a != [] && b != []
    ensures Render(a + [d] + b) == Render(a) + ", " + Show(d) + (", " + Render(b))
  {
    var db := [d] + b;
    assert a + [d] + b == a + db;
    RenderConcat(a, db);
    RenderConcat([d], b);
    RenderOne(d);
    JoinThree(Render(a) + ", ", Render([d]), ", " + Render(b));
  }

  /** A single value renders as itself. */
  lemma RenderOne(d: int)
    ensures Render([d]) == Show(d)
  {
  }

  /** Joining three strings does not depend on grouping. */
  lemma JoinThree(x: string, y: string, z: string)
    ensures x + (y + z) == x + y + z
  {
  }
}

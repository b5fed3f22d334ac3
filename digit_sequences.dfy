/**
 * What the container operations of the digit list do, stated on plain
 * sequences of digit values: searching from either end, filtering against a
 * collection, cyclic rotation, value exchange, sortedness, and the prefix of
 * an insertion run that passes the range check.
 */
module DigitSequences {

  // ---------------------------------------------------------------------------
  // Digits of a base
  // ---------------------------------------------------------------------------

  /** Every element of `s` is a digit of base `b`. */
  predicate InBase(s: seq<int>, b: int)
  {
    forall i :: 0 <= i < |s| ==> 0 <= s[i] < b
  }

  /** A sequence made only of elements of a sequence of digits is itself made of digits. */
  lemma InBaseMembers(s: seq<int>, t: seq<int>, b: int)
    requires InBase(s, b) && forall x :: x in t ==> x in s
    ensures InBase(t, b)
  {
    forall i | 0 <= i < |t|
      ensures 0 <= t[i] < b
    {
      assert t[i] in t;
    }
  }

  /** Inserting a digit into a sequence of digits keeps it a sequence of digits. */
  lemma InBaseInsert(s: seq<int>, b: int, k: int, d: int)
    requires InBase(s, b) && 0 <= k <= |s| && 0 <= d < b
    ensures InBase(s[..k] + [d] + s[k..], b)
  {
    var t := s[..k] + [d] + s[k..];
    forall i | 0 <= i < |t|
      ensures 0 <= t[i] < b
    {
      if i < k {
        assert t[i] == s[i];
      } else if i > k {
        assert t[i] == s[i - 1];
      }
    }
  }

  /** Removing one element of a sequence of digits keeps it a sequence of digits. */
  lemma InBaseRemove(s: seq<int>, b: int, k: int)
    requires InBase(s, b) && 0 <= k < |s|
    ensures InBase(s[..k] + s[k + 1..], b)
  {
    var t := s[..k] + s[k + 1..];
    forall i | 0 <= i < |t|
      ensures 0 <= t[i] < b
    {
      assert t[i] == if i < k then s[i] else s[i + 1];
    }
  }

  /** Overwriting one digit of a sequence of digits with a digit keeps it a sequence of digits. */
  lemma InBaseUpdate(s: seq<int>, b: int, k: int, d: int)
    requires InBase(s, b) && 0 <= k < |s| && 0 <= d < b
    ensures InBase(s[k := d], b)
  {
  }

  /** Extending a prefix by one element. */
  lemma PrefixGrows(s: seq<int>, i: int)
    requires 0 <= i < |s|
    ensures s[..i + 1] == s[..i] + [s[i]]
  {
  }

  /** Appending the next element of `c` to `s` followed by a prefix of `c` extends the prefix. */
  lemma AppendGrows(s: seq<int>, c: seq<int>, i: int)
    requires 0 <= i < |c|
    ensures s + c[..i] + [c[i]] == s + c[..i + 1]
  {
    PrefixGrows(c, i);
  }

  /** Inserting `d`, which is `c[i]`, at position `at`, right after `c[..i]` in `before + c[..i] + after`, extends that prefix by one. */
  lemma InsertionGrows<T>(before: seq<T>, c: seq<T>, after: seq<T>, i: int, at: int, d: T)
    requires 0 <= i < |c| && at == |before| + i && d == c[i]
    ensures var s := before + c[..i] + after;
      s[..at] + [d] + s[at..] == before + c[..i + 1] + after
  {
    var s := before + c[..i] + after;
    assert s[..at] == before + c[..i];
    assert s[at..] == after;
    assert c[..i + 1] == c[..i] + [c[i]];
  }

  /** Moving the first element of `s` onto the end of what precedes it. */
  lemma HeadMoved<T>(a: seq<T>, s: seq<T>)
    requires s != []
    ensures a + s == (a + [s[0]]) + s[1..]
  {
    assert s == [s[0]] + s[1..];
  }

  /** Dropping the first element of `s`, which follows `a`. */
  lemma HeadDropped<T>(a: seq<T>, s: seq<T>)
    requires s != []
    ensures var t := a + s; t[..|a|] + t[|a| + 1..] == a + s[1..]
  {
    var t := a + s;
    assert t[..|a|] == a;
    assert t[|a| + 1..] == s[1..];
  }

  // ---------------------------------------------------------------------------
  // Search
  // ---------------------------------------------------------------------------

  /** The position of the first `x` in `s`, or -1 when there is none. */
  function FirstIndex(s: seq<int>, x: int): (r: int)
    ensures -1 <= r < |s|
    ensures r == -1 <==> x !in s
    ensures r >= 0 ==> s[r] == x && x !in s[..r]
  {
    if s == [] then -1
    else if s[0] == x then 0
    else
      var k := FirstIndex(s[1..], x);
      if k == -1 then -1
      else
        assert s[..k + 1] == [s[0]] + s[1..][..k];
        k + 1
  }

  /** The position of the last `x` in `s`, or -1 when there is none. */
  function LastIndex(s: seq<int>, x: int): (r: int)
    ensures -1 <= r < |s|
    ensures r == -1 <==> x !in s
    ensures r >= 0 ==> s[r] == x && x !in s[r + 1..]
  {
    if s == [] then -1
    else if s[|s| - 1] == x then |s| - 1
    else LastIndex(s[..|s| - 1], x)
  }

  // ---------------------------------------------------------------------------
  // Filtering against a collection
  // ---------------------------------------------------------------------------

  /**
   * The digits of `s`, in order, that are kept by a bulk removal: those in
   * `c` when `retain` holds, those not in `c` otherwise.
   */
  function Filter(s: seq<int>, c: set<int>, retain: bool): (r: seq<int>)
    ensures |r| <= |s|
  {
    if s == [] then []
    else
      var init, last := s[..|s| - 1], s[|s| - 1];
      assert s == init + [last];
      Filter(init, c, retain) + (if last in c <==> retain then [last] else [])
  }

  /** Filtering one more digit `x` after `s` keeps it or drops it and leaves the rest alone. */
  lemma FilterAppend(s: seq<int>, x: int, c: set<int>, retain: bool)
    ensures Filter(s + [x], c, retain) == Filter(s, c, retain) + (if x in c <==> retain then [x] else [])
  {
    assert (s + [x])[..|s|] == s;
  }

  /**
   * One step of a filtering walk: the digits `F` kept from `D` so far grow
   * by `x` exactly when `x` is kept, and fall behind the digits seen
   * exactly when some digit was dropped.
   */
  lemma FilterStep(D: seq<int>, x: int, c: set<int>, retain: bool, keep: bool, F: seq<int>, F': seq<int>)
    requires F == Filter(D, c, retain) && (keep <==> (x in c <==> retain))
    requires F' == if keep then F + [x] else F
    ensures F' == Filter(D + [x], c, retain)
    ensures |F'| < |D| + 1 <==> (|F| < |D| || !keep)
  {
    FilterAppend(D, x, c, retain);
  }

  /**
   * The bookkeeping of one step of a filtering walk over `rest`, whose
   * digits are `R`, after `kept` with digits `F` filtered from `D`: the
   * first element moves to `kept'` when kept, and the walk goes on with one
   * element fewer, the filtered digits still filtering the visited ones.
   */
  lemma FilterWalkStep<T>(kept: seq<T>, rest: seq<T>, F: seq<int>, D: seq<int>, R: seq<int>,
                          c: set<int>, retain: bool, keep: bool, kept': seq<T>, F': seq<int>)
    requires rest != [] && |kept| == |F| && |rest| == |R| && F == Filter(D, c, retain)
    requires keep <==> (R[0] in c <==> retain)
    requires kept' == (if keep then kept + [rest[0]] else kept) && F' == (if keep then F + [R[0]] else F)
    ensures |kept'| == |F'| && |rest[1..]| == |R[1..]| && |rest[1..]| < |rest|
    ensures (D + [R[0]]) + R[1..] == D + R
    ensures rest[1..] == [] <==> |rest| == 1
    ensures |rest| > 1 ==> rest[1..][0] == rest[1]
    ensures F' == Filter(D + [R[0]], c, retain)
    ensures |F'| < |D + [R[0]]| <==> (|F| < |D| || !keep)
  {
    FilterStep(D, R[0], c, retain, keep, F, F');
    HeadMoved(D, R);
  }

  /** A digit survives filtering exactly when it occurs in `s` and is kept. */
  lemma {:induction false} FilterMembers(s: seq<int>, c: set<int>, retain: bool)
    ensures forall x :: x in Filter(s, c, retain) <==> x in s && (x in c <==> retain)
    decreases |s|
  {
    if s != [] {
      var init, last := s[..|s| - 1], s[|s| - 1];
      assert s == init + [last];
      FilterMembers(init, c, retain);
    }
  }

  /** Filtering shortens `s` exactly when some digit of `s` is rejected. */
  lemma {:induction false} FilterShortens(s: seq<int>, c: set<int>, retain: bool)
    ensures |Filter(s, c, retain)| < |s| <==> exists i :: 0 <= i < |s| && (s[i] in c <==> !retain)
    decreases |s|
  {
    if s != [] {
      var init, last := s[..|s| - 1], s[|s| - 1];
      assert s == init + [last];
      FilterShortens(init, c, retain);
      if exists i :: 0 <= i < |init| && (init[i] in c <==> !retain) {
        var i :| 0 <= i < |init| && (init[i] in c <==> !retain);
        assert s[i] == init[i];
      }
      if exists i :: 0 <= i < |s| && (s[i] in c <==> !retain) {
        var i :| 0 <= i < |s| && (s[i] in c <==> !retain);
        if i < |init| {
          assert init[i] == s[i];
        }
      }
    }
  }

  /** Filtering that rejects no digit of `s` gives back `s`. */
  lemma {:induction false} FilterKeepsAll(s: seq<int>, c: set<int>, retain: bool)
    requires forall i :: 0 <= i < |s| ==> (s[i] in c <==> retain)
    ensures Filter(s, c, retain) == s
    decreases |s|
  {
    if s != [] {
      var init := s[..|s| - 1];
      assert s == init + [s[|s| - 1]];
      FilterKeepsAll(init, c, retain);
    }
  }

  /** Removing the members of a collection and retaining them split a sequence's digits between them. */
  lemma {:induction false} FilterPartition(s: seq<int>, c: set<int>)
    ensures multiset(Filter(s, c, false)) + multiset(Filter(s, c, true)) == multiset(s)
    decreases |s|
  {
    if s != [] {
      var init, last := s[..|s| - 1], s[|s| - 1];
      assert s == init + [last];
      FilterPartition(init, c);
    }
  }

  // ---------------------------------------------------------------------------
  // Rotation and exchange
  // ---------------------------------------------------------------------------

  /** The first digit moved to the end; sequences of at most one digit are unchanged. */
  function RotatedLeft(s: seq<int>): seq<int>
  {
    if |s| <= 1 then s else s[1..] + [s[0]]
  }

  /** The last digit moved to the front; sequences of at most one digit are unchanged. */
  function RotatedRight(s: seq<int>): seq<int>
  {
    if |s| <= 1 then s else [s[|s| - 1]] + s[..|s| - 1]
  }

  /** Rotating right undoes rotating left. */
  lemma RightUndoesLeft(s: seq<int>)
    ensures RotatedRight(RotatedLeft(s)) == s
  {
    if |s| > 1 {
      var l := s[1..] + [s[0]];
      assert l[|l| - 1] == s[0] && l[..|l| - 1] == s[1..];
      assert [s[0]] + s[1..] == s;
    }
  }

  /** Rotating left undoes rotating right. */
  lemma LeftUndoesRight(s: seq<int>)
    ensures RotatedLeft(RotatedRight(s)) == s
  {
    if |s| > 1 {
      var r := [s[|s| - 1]] + s[..|s| - 1];
      assert r[0] == s[|s| - 1] && r[1..] == s[..|s| - 1];
      assert s[..|s| - 1] + [s[|s| - 1]] == s;
    }
  }

  /** Rotation keeps the digits, only their order changes. */
  lemma RotationsPermute(s: seq<int>)
    ensures multiset(RotatedLeft(s)) == multiset(s)
    ensures multiset(RotatedRight(s)) == multiset(s)
  {
    if |s| > 1 {
      assert s == [s[0]] + s[1..];
      assert s == s[..|s| - 1] + [s[|s| - 1]];
    }
  }

  /** `s` with the digits at `i` and `j` exchanged. */
  function Swapped(s: seq<int>, i: nat, j: nat): (r: seq<int>)
    requires i < |s| && j < |s|
    ensures |r| == |s|
  {
    s[i := s[j]][j := s[i]]
  }

  /** Exchanging keeps the digits, and exchanging again restores the order. */
  lemma SwappedPermutes(s: seq<int>, i: nat, j: nat)
    requires i < |s| && j < |s|
    ensures multiset(Swapped(s, i, j)) == multiset(s)
    ensures Swapped(Swapped(s, i, j), i, j) == s
  {
  }

  // ---------------------------------------------------------------------------
  // Ordering
  // ---------------------------------------------------------------------------

  predicate Ascending(s: seq<int>)
  {
    forall p, q :: 0 <= p < q < |s| ==> s[p] <= s[q]
  }

  predicate Descending(s: seq<int>)
  {
    forall p, q :: 0 <= p < q < |s| ==> s[p] >= s[q]
  }

  /** The first `i` digits are in ascending order and none exceeds any later digit. */
  predicate SettledAscending(s: seq<int>, i: int)
  {
    forall p, q :: 0 <= p < q < |s| && p < i ==> s[p] <= s[q]
  }

  /** The first `i` digits are in descending order and none is below any later digit. */
  predicate SettledDescending(s: seq<int>, i: int)
  {
    forall p, q :: 0 <= p < q < |s| && p < i ==> s[p] >= s[q]
  }

  /**
   * One step of an ascending selection sort: exchanging position `i` with
   * the position `m` of a least digit from `i` on settles one more digit.
   */
  lemma SelectLeast(s: seq<int>, i: nat, m: nat)
    requires i <= m < |s| && SettledAscending(s, i)
    requires forall q :: i <= q < |s| ==> s[m] <= s[q]
    ensures SettledAscending(Swapped(s, i, m), i + 1)
    ensures m == i ==> Swapped(s, i, m) == s
  {
    var t := Swapped(s, i, m);
    forall p, q | 0 <= p < q < |t| && p < i + 1
      ensures t[p] <= t[q]
    {
      assert t[q] == if q == m then s[i] else if q == i then s[m] else s[q];
      if p < i {
        assert t[p] == s[p];
      }
    }
  }

  /**
   * One step of a descending selection sort: exchanging position `i` with
   * the position `m` of a greatest digit from `i` on settles one more digit.
   */
  lemma SelectGreatest(s: seq<int>, i: nat, m: nat)
    requires i <= m < |s| && SettledDescending(s, i)
    requires forall q :: i <= q < |s| ==> s[m] >= s[q]
    ensures SettledDescending(Swapped(s, i, m), i + 1)
    ensures m == i ==> Swapped(s, i, m) == s
  {
    var t := Swapped(s, i, m);
    forall p, q | 0 <= p < q < |t| && p < i + 1
      ensures t[p] >= t[q]
    {
      assert t[q] == if q == m then s[i] else if q == i then s[m] else s[q];
      if p < i {
        assert t[p] == s[p];
      }
    }
  }

  function Reversed(s: seq<int>): (r: seq<int>)
    ensures |r| == |s|
    ensures forall i :: 0 <= i < |s| ==> r[i] == s[|s| - 1 - i]
  {
    if s == [] then [] else Reversed(s[1..]) + [s[0]]
  }

  /** The least digit of a non-empty ascending sequence is its first. */
  lemma AscendingHeadIsMinimum(s: seq<int>, x: int)
    requires Ascending(s) && x in multiset(s)
    ensures s[0] <= x
  {
    var k :| 0 <= k < |s| && s[k] == x;
  }

  /** Two arrangements of one multiset that start alike go on with one multiset. */
  lemma SameHeadSameRest(a: seq<int>, b: seq<int>)
    requires a != [] && b != [] && a[0] == b[0] && multiset(a) == multiset(b)
    ensures multiset(a[1..]) == multiset(b[1..])
  {
    assert a == [a[0]] + a[1..] && b == [b[0]] + b[1..];
    var x, A, B := a[0], multiset(a[1..]), multiset(b[1..]);
    assert multiset(a) == multiset{x} + A && multiset(b) == multiset{x} + B;
    forall y
      ensures A[y] == B[y]
    {
      assert (multiset{x} + A)[y] == (multiset{x} + B)[y];
    }
  }

  /** Two sequences that agree on their first element and on the rest are equal. */
  lemma HeadAndRest(a: seq<int>, b: seq<int>)
    requires a != [] && b != [] && a[0] == b[0] && a[1..] == b[1..]
    ensures a == b
  {
    assert |a| == |b| by { assert |a[1..]| == |b[1..]|; }
    forall i | 0 < i < |a|
      ensures a[i] == b[i]
    {
      assert a[i] == a[1..][i - 1] && b[i] == b[1..][i - 1];
    }
  }

  /** A digit multiset has only one ascending arrangement. */
  lemma {:induction false} AscendingUnique(a: seq<int>, b: seq<int>)
    requires Ascending(a) && Ascending(b) && multiset(a) == multiset(b)
    ensures a == b
    decreases |a|
  {
    if a != [] {
      assert |b| == |a| by { assert |multiset(b)| == |multiset(a)|; }
      assert a[0] in multiset(b) && b[0] in multiset(a);
      AscendingHeadIsMinimum(b, a[0]);
      AscendingHeadIsMinimum(a, b[0]);
      SameHeadSameRest(a, b);
      assert Ascending(a[1..]) && Ascending(b[1..]);
      AscendingUnique(a[1..], b[1..]);
      HeadAndRest(a, b);
    }
  }

  lemma {:induction false} ReversedPermutes(s: seq<int>)
    ensures multiset(Reversed(s)) == multiset(s)
    decreases |s|
  {
    if s != [] {
      ReversedPermutes(s[1..]);
      assert s == [s[0]] + s[1..];
    }
  }

  /**
   * Sorting the same digits in descending order gives the ascending
   * arrangement read backwards.
   */
  lemma DescendingIsReversedAscending(a: seq<int>, d: seq<int>)
    requires Ascending(a) && Descending(d) && multiset(a) == multiset(d)
    ensures d == Reversed(a)
  {
    var r := Reversed(d);
    ReversedPermutes(d);
    assert Ascending(r);
    AscendingUnique(a, r);
    assert Reversed(r) == d;
  }

  // ---------------------------------------------------------------------------
  // Range checking of an insertion run
  // ---------------------------------------------------------------------------

  /** The position of the first digit of `c` outside `[0, b)`, or `|c|` when all are inside. */
  function FirstOutOfRange(c: seq<int>, b: int): (k: nat)
    ensures k <= |c|
    ensures forall i :: 0 <= i < k ==> 0 <= c[i] < b
    ensures k < |c| ==> !(0 <= c[k] < b)
  {
    if c == [] then 0
    else if !(0 <= c[0] < b) then 0
    else 1 + FirstOutOfRange(c[1..], b)
  }

  /** A scan that accepted every element before `i` and stops at `i` has found `FirstOutOfRange`. */
  lemma StopsAtFirstOutOfRange(c: seq<int>, b: int, i: int)
    requires 0 <= i <= FirstOutOfRange(c, b)
    requires i == |c| || !(0 <= c[i] < b)
    ensures i == FirstOutOfRange(c, b)
  {
  }
}

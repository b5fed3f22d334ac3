/**
 * The nodes of the doubly linked digit list and the facts that keep a chain
 * of them well formed while its links are rewired.
 *
 * A chain is a sequence of nodes, head first.  `NextChain` and `PrevChain`
 * say that the forward and the backward links follow the sequence, `Holds`
 * that the nodes carry a given sequence of digits.  Each pointer update the
 * list performs (unlinking a node, splicing one in, rotating the chain by one
 * node, overwriting values) has a two-state lemma here that rebuilds these
 * facts for the new chain from the old chain and the few links that changed.
 */
module NodeChains {
  import opened Numerals
  import opened DigitSequences

  /**
   * The forward shape of a digit list: distinct nodes `N`, linked forwards,
   * holding the digits `C` of base `b`, with `size` their number and `head`
   * and `tail` the first and last of them.
   */
  ghost predicate ForwardShape(b: int, size: int, head: Node?, tail: Node?, N: seq<Node>, C: seq<int>)
    reads N
  {
    && MIN_BASE <= b <= MAX_BASE
    && size == |N|
    && Distinct(N)
    && Holds(N, C)
    && InBase(C, b)
    && NextChain(N)
    && (if size == 0 then head == null && tail == null
        else head == N[0] && tail == N[size - 1])
  }

  /** One list node: a digit and the links to its neighbours. */
  class Node {
    var value: int
    var prev: Node?
    var next: Node?

    constructor (value: int)
      ensures this.value == value && prev == null && next == null
    {
      this.value := value;
      prev := null;
      next := null;
    }
  }

  /** No node occurs twice: the head is not among the rest, which is itself distinct. */
  ghost predicate Distinct(N: seq<Node>)
    decreases |N|
  {
    |N| == 0 || (N[0] !in N[1..] && Distinct(N[1..]))
  }

  /** Distinctness read pairwise: no two positions hold the same node. */
  lemma {:induction false} DistinctApart(N: seq<Node>)
    ensures Distinct(N) <==> forall i, j :: 0 <= i < j < |N| ==> N[i] != N[j]
    decreases |N|
  {
    if |N| > 0 {
      var R := N[1..];
      DistinctApart(R);
      if forall i, j :: 0 <= i < j < |N| ==> N[i] != N[j] {
        forall i, j | 0 <= i < j < |R|
          ensures R[i] != R[j]
        {
          assert R[i] == N[i + 1] && R[j] == N[j + 1];
        }
        forall j | 0 <= j < |R|
          ensures R[j] != N[0]
        {
          assert R[j] == N[j + 1];
        }
      }
      if Distinct(N) {
        forall i, j | 0 <= i < j < |N|
          ensures N[i] != N[j]
        {
          assert N[j] == R[j - 1];
          if i > 0 {
            assert N[i] == R[i - 1];
          }
        }
      }
    }
  }

  /** Two positions of a distinct sequence hold two different nodes. */
  lemma DistinctAt(N: seq<Node>, i: int, j: int)
    requires Distinct(N) && 0 <= i < j < |N|
    ensures N[i] != N[j]
  {
    DistinctApart(N);
  }

  /** Node `i` of `N` has node `i + 1` as its `next`. */
  ghost predicate LinksForward(N: seq<Node>, i: int)
    reads N
  {
    0 <= i < |N| - 1 && N[i].next == N[i + 1]
  }

  /** Node `i` of `N` has node `i - 1` as its `prev`. */
  ghost predicate LinksBack(N: seq<Node>, i: int)
    reads N
  {
    0 < i < |N| && N[i].prev == N[i - 1]
  }

  /** Each node's `next` is its successor and the last node has none. */
  ghost predicate NextChain(N: seq<Node>)
    reads N
  {
    && (forall i :: 0 <= i < |N| - 1 ==> LinksForward(N, i))
    && (|N| > 0 ==> N[|N| - 1].next == null)
  }

  /** Each node's `prev` is its predecessor and the first node has none. */
  ghost predicate PrevChain(N: seq<Node>)
    reads N
  {
    && (forall i :: 0 < i < |N| ==> LinksBack(N, i))
    && (|N| > 0 ==> N[0].prev == null)
  }

  /** In a forward chain, the `next` of node `k` is node `k + 1`, or none after the last. */
  lemma NextOf(N: seq<Node>, k: int)
    requires NextChain(N) && 0 <= k < |N|
    ensures N[k].next == if k + 1 < |N| then N[k + 1] else null
  {
    if k + 1 < |N| {
      assert LinksForward(N, k);
    }
  }

  /** In a backward chain, the `prev` of node `k` is node `k - 1`, or none before the first. */
  lemma PrevOf(N: seq<Node>, k: int)
    requires PrevChain(N) && 0 <= k < |N|
    ensures N[k].prev == if k > 0 then N[k - 1] else null
  {
    if k > 0 {
      assert LinksBack(N, k);
    }
  }

  /** The nodes carry the digits `C`, in order. */
  ghost predicate Holds(N: seq<Node>, C: seq<int>)
    reads N
  {
    |N| == |C| && forall i :: 0 <= i < |N| ==> N[i].value == C[i]
  }

  // ---------------------------------------------------------------------------
  // Taking one node out
  // ---------------------------------------------------------------------------

  /** `M` is `N` with position `k` taken out, stated position by position. */
  ghost predicate RemovedAt<T>(N: seq<T>, k: int, M: seq<T>)
  {
    && 0 <= k < |N| && |M| == |N| - 1
    && forall j {:trigger M[j]} :: 0 <= j < |M| ==> M[j] == if j < k then N[j] else N[j + 1]
  }

  lemma RemovedAtSlices<T>(N: seq<T>, k: int)
    requires 0 <= k < |N|
    ensures RemovedAt(N, k, N[..k] + N[k + 1..])
  {
  }

  lemma RemoveDistinct(N: seq<Node>, k: int, M: seq<Node>)
    requires RemovedAt(N, k, M) && Distinct(N)
    ensures Distinct(M)
  {
    forall i, j | 0 <= i < j < |M|
      ensures M[i] != M[j]
    {
      DistinctAt(N, if i < k then i else i + 1, if j < k then j else j + 1);
    }
    DistinctApart(M);
  }

  /** The first and last elements once position `k` is taken out. */
  lemma RemoveEnds<T>(N: seq<T>, k: int)
    requires 0 <= k < |N|
    ensures var M := N[..k] + N[k + 1..];
      && |M| == |N| - 1
      && (|M| > 0 ==> M[0] == (if k == 0 then N[1] else N[0]))
      && (|M| > 0 ==> M[|M| - 1] == (if k == |N| - 1 then N[|N| - 2] else N[|N| - 1]))
  {
  }

  /** Bridging the predecessor of node `k` to its successor keeps the forward chain. */
  twostate lemma UnlinkNext(N: seq<Node>, new k: int, new M: seq<Node>)
    requires RemovedAt(N, k, M) && Distinct(N) && old(NextChain(N))
    requires forall n | n in N :: (k == 0 || n != N[k - 1]) && n != N[k] ==> n.next == old(n.next)
    requires k > 0 ==> N[k - 1].next == (if k + 1 < |N| then N[k + 1] else null)
    ensures NextChain(M)
  {
    forall i | 0 <= i < |M| - 1
      ensures LinksForward(M, i)
    {
      if i < k - 1 {
        DistinctAt(N, i, k - 1);
        DistinctAt(N, i, k);
        assert old(LinksForward(N, i));
        assert M[i] == N[i];
        assert M[i + 1] == N[i + 1];
        assert N[i] in N;
      } else if i == k - 1 {
        assert M[i] == N[k - 1] && M[i + 1] == N[k + 1];
      } else {
        DistinctAt(N, k, i + 1);
        if k > 0 {
          DistinctAt(N, k - 1, i + 1);
        }
        assert old(LinksForward(N, i + 1));
        assert M[i] == N[i + 1] && M[i + 1] == N[i + 2] && N[i + 1] in N;
      }
    }
    if k < |N| - 1 {
      DistinctAt(N, k, |N| - 1);
      if k > 0 {
        DistinctAt(N, k - 1, |N| - 1);
      }
      assert M[|M| - 1] == N[|N| - 1] && N[|N| - 1] in N;
    } else if k > 0 {
      assert M[|M| - 1] == N[k - 1];
    }
  }

  /** Bridging the successor of node `k` back to its predecessor keeps the backward chain. */
  twostate lemma UnlinkPrev(N: seq<Node>, new k: int, new M: seq<Node>)
    requires RemovedAt(N, k, M) && Distinct(N) && old(PrevChain(N))
    requires forall n | n in N :: (k + 1 == |N| || n != N[k + 1]) && n != N[k] ==> n.prev == old(n.prev)
    requires k + 1 < |N| ==> N[k + 1].prev == (if k > 0 then N[k - 1] else null)
    ensures PrevChain(M)
  {
    forall i | 0 < i < |M|
      ensures LinksBack(M, i)
    {
      if i < k {
        DistinctAt(N, i, k);
        if k + 1 < |N| {
          DistinctAt(N, i, k + 1);
        }
        assert old(LinksBack(N, i));
        assert M[i] == N[i] && M[i - 1] == N[i - 1] && N[i] in N;
      } else if i == k {
        assert M[i] == N[k + 1] && M[i - 1] == N[k - 1];
      } else {
        DistinctAt(N, k, i + 1);
        DistinctAt(N, k + 1, i + 1);
        assert old(LinksBack(N, i + 1));
        assert M[i] == N[i + 1] && M[i - 1] == N[i] && N[i + 1] in N;
      }
    }
    if k > 0 {
      DistinctAt(N, 0, k);
      if k + 1 < |N| {
        DistinctAt(N, 0, k + 1);
      }
      assert M[0] == N[0] && N[0] in N;
    } else if |M| > 0 {
      assert M[0] == N[1];
    }
  }

  /** Taking a node out keeps the digits of the others, in order. */
  twostate lemma UnlinkHolds(N: seq<Node>, new C: seq<int>, new k: int, new M: seq<Node>, new D: seq<int>)
    requires RemovedAt(N, k, M) && RemovedAt(C, k, D) && old(Holds(N, C))
    requires forall n | n in N :: n.value == old(n.value)
    ensures Holds(M, D)
  {
    forall i | 0 <= i < |M|
      ensures M[i].value == D[i]
    {
      var i' := if i < k then i else i + 1;
      assert M[i] == N[i'] && D[i] == C[i'] && N[i'] in N;
    }
  }

  /**
   * Unlinking node `k`: its neighbours are bridged in both directions and no
   * other link or value changes, so what is left is a well-formed chain
   * holding the other digits.
   */
  twostate lemma Unlinked(N: seq<Node>, new C: seq<int>, new k: int)
    requires 0 <= k < |N| && Distinct(N)
    requires old(NextChain(N)) && old(PrevChain(N)) && old(Holds(N, C))
    requires forall n | n in N ::
      && n.value == old(n.value)
      && ((k == 0 || n != N[k - 1]) && n != N[k] ==> n.next == old(n.next))
      && ((k + 1 == |N| || n != N[k + 1]) && n != N[k] ==> n.prev == old(n.prev))
    requires k > 0 ==> N[k - 1].next == (if k + 1 < |N| then N[k + 1] else null)
    requires k + 1 < |N| ==> N[k + 1].prev == (if k > 0 then N[k - 1] else null)
    ensures var M := N[..k] + N[k + 1..];
      Distinct(M) && NextChain(M) && PrevChain(M) && Holds(M, C[..k] + C[k + 1..])
  {
    var M, D := N[..k] + N[k + 1..], C[..k] + C[k + 1..];
    RemovedAtSlices(N, k);
    RemovedAtSlices(C, k);
    UnlinkNext(N, k, M);
    UnlinkPrev(N, k, M);
    UnlinkHolds(N, C, k, M, D);
    RemoveDistinct(N, k, M);
  }

  // ---------------------------------------------------------------------------
  // Splicing one node in
  // ---------------------------------------------------------------------------

  /** `M` is `N` with `x` inserted at position `k`, stated position by position. */
  ghost predicate InsertedAt<T>(N: seq<T>, k: int, x: T, M: seq<T>)
  {
    && 0 <= k <= |N| && |M| == |N| + 1
    && forall j {:trigger M[j]} :: 0 <= j < |M| ==> M[j] == if j < k then N[j] else if j == k then x else N[j - 1]
  }

  lemma InsertedAtSlices<T>(N: seq<T>, k: int, x: T)
    requires 0 <= k <= |N|
    ensures InsertedAt(N, k, x, N[..k] + [x] + N[k..])
  {
  }

  lemma InsertDistinct(N: seq<Node>, k: int, node: Node, M: seq<Node>)
    requires InsertedAt(N, k, node, M) && Distinct(N) && node !in N
    ensures Distinct(M)
  {
    forall i, j | 0 <= i < j < |M|
      ensures M[i] != M[j]
    {
      if i == k {
        assert M[j] == N[j - 1] && N[j - 1] in N;
      } else if j == k {
        assert M[i] == N[i] && N[i] in N;
      } else {
        DistinctAt(N, if i < k then i else i - 1, if j < k then j else j - 1);
      }
    }
    DistinctApart(M);
  }

  /** The first, last and `k`-th elements once `x` is inserted at position `k`. */
  lemma InsertEnds<T>(N: seq<T>, k: int, x: T)
    requires 0 <= k <= |N|
    ensures var M := N[..k] + [x] + N[k..];
      && |M| == |N| + 1 && M[k] == x
      && M[0] == (if k == 0 then x else N[0])
      && M[|M| - 1] == (if k == |N| then x else N[|N| - 1])
  {
  }

  /** A fresh node pointed to by its predecessor and pointing to its successor extends the forward chain. */
  twostate lemma InsertNext(N: seq<Node>, new k: int, new node: Node, new M: seq<Node>)
    requires InsertedAt(N, k, node, M) && Distinct(N) && old(NextChain(N)) && node !in N
    requires forall n | n in N :: (k == 0 || n != N[k - 1]) ==> n.next == old(n.next)
    requires k > 0 ==> N[k - 1].next == node
    requires node.next == (if k < |N| then N[k] else null)
    ensures NextChain(M)
  {
    forall i | 0 <= i < |M| - 1
      ensures LinksForward(M, i)
    {
      if i < k - 1 {
        DistinctAt(N, i, k - 1);
        assert old(LinksForward(N, i));
        assert M[i] == N[i] && M[i + 1] == N[i + 1] && N[i] in N;
      } else if i == k - 1 {
        assert M[i] == N[k - 1] && M[i + 1] == node;
      } else if i == k {
        assert M[i] == node && M[i + 1] == N[k];
      } else {
        if k > 0 {
          DistinctAt(N, k - 1, i - 1);
        }
        assert old(LinksForward(N, i - 1));
        assert M[i] == N[i - 1] && M[i + 1] == N[i] && N[i - 1] in N;
      }
    }
    if k < |N| {
      if k > 0 {
        DistinctAt(N, k - 1, |N| - 1);
      }
      assert M[|M| - 1] == N[|N| - 1] && N[|N| - 1] in N;
    } else {
      assert M[|M| - 1] == node;
    }
  }

  /** A fresh node pointed back to by its successor and pointing back to its predecessor extends the backward chain. */
  twostate lemma InsertPrev(N: seq<Node>, new k: int, new node: Node, new M: seq<Node>)
    requires InsertedAt(N, k, node, M) && Distinct(N) && old(PrevChain(N)) && node !in N
    requires forall n | n in N :: (k == |N| || n != N[k]) ==> n.prev == old(n.prev)
    requires k < |N| ==> N[k].prev == node
    requires node.prev == (if k > 0 then N[k - 1] else null)
    ensures PrevChain(M)
  {
    forall i | 0 < i < |M|
      ensures LinksBack(M, i)
    {
      if i < k {
        if k < |N| {
          DistinctAt(N, i, k);
        }
        assert old(LinksBack(N, i));
        assert M[i] == N[i] && M[i - 1] == N[i - 1] && N[i] in N;
      } else if i == k {
        assert M[i] == node && M[i - 1] == N[k - 1];
      } else if i == k + 1 {
        assert M[i] == N[k] && M[i - 1] == node;
      } else {
        DistinctAt(N, k, i - 1);
        assert old(LinksBack(N, i - 1));
        assert M[i] == N[i - 1] && M[i - 1] == N[i - 2] && N[i - 1] in N;
      }
    }
    if k > 0 {
      if k < |N| {
        DistinctAt(N, 0, k);
      }
      assert M[0] == N[0] && N[0] in N;
    } else {
      assert M[0] == node;
    }
  }

  /** Splicing in a node holding `d` inserts `d` into the digits at the same position. */
  twostate lemma InsertHolds(N: seq<Node>, new C: seq<int>, new k: int, new node: Node, new d: int,
                             new M: seq<Node>, new D: seq<int>)
    requires InsertedAt(N, k, node, M) && InsertedAt(C, k, d, D) && old(Holds(N, C)) && node.value == d
    requires forall n | n in N :: n.value == old(n.value)
    ensures Holds(M, D)
  {
    forall i | 0 <= i < |M|
      ensures M[i].value == D[i]
    {
      if i < k {
        assert M[i] == N[i] && D[i] == C[i] && N[i] in N;
      } else if i > k {
        assert M[i] == N[i - 1] && D[i] == C[i - 1] && N[i - 1] in N;
      } else {
        assert M[i] == node && D[i] == d;
      }
    }
  }

  /**
   * Splicing a fresh node holding `d` in at position `k`, linked forwards
   * from its predecessor and to its successor, with no other forward link
   * and no value changed: the forward chain holds the digits with `d`
   * inserted.
   */
  twostate lemma InsertedForward(N: seq<Node>, new C: seq<int>, new k: int, new node: Node, new d: int)
    requires 0 <= k <= |N| && Distinct(N) && node !in N
    requires old(NextChain(N)) && old(Holds(N, C))
    requires forall n | n in N :: n.value == old(n.value) && ((k == 0 || n != N[k - 1]) ==> n.next == old(n.next))
    requires k > 0 ==> N[k - 1].next == node
    requires node.next == (if k < |N| then N[k] else null) && node.value == d
    ensures var M := N[..k] + [node] + N[k..];
      Distinct(M) && NextChain(M) && Holds(M, C[..k] + [d] + C[k..])
  {
    var M, D := N[..k] + [node] + N[k..], C[..k] + [d] + C[k..];
    InsertedAtSlices(N, k, node);
    InsertedAtSlices(C, k, d);
    InsertNext(N, k, node, M);
    InsertHolds(N, C, k, node, d, M, D);
    InsertDistinct(N, k, node, M);
  }

  /**
   * Splicing a fresh node holding `d` in at position `k`, linked in both
   * directions to its neighbours, with no other link and no value changed:
   * the chain is well formed and holds the digits with `d` inserted.
   */
  twostate lemma Inserted(N: seq<Node>, new C: seq<int>, new k: int, new node: Node, new d: int)
    requires 0 <= k <= |N| && Distinct(N) && node !in N
    requires old(NextChain(N)) && old(PrevChain(N)) && old(Holds(N, C))
    requires forall n | n in N ::
      && n.value == old(n.value)
      && ((k == 0 || n != N[k - 1]) ==> n.next == old(n.next))
      && ((k == |N| || n != N[k]) ==> n.prev == old(n.prev))
    requires k > 0 ==> N[k - 1].next == node
    requires k < |N| ==> N[k].prev == node
    requires node.next == (if k < |N| then N[k] else null)
    requires node.prev == (if k > 0 then N[k - 1] else null)
    requires node.value == d
    ensures var M := N[..k] + [node] + N[k..];
      Distinct(M) && NextChain(M) && PrevChain(M) && Holds(M, C[..k] + [d] + C[k..])
  {
    InsertedForward(N, C, k, node, d);
    InsertedAtSlices(N, k, node);
    InsertPrev(N, k, node, N[..k] + [node] + N[k..]);
  }

  // ---------------------------------------------------------------------------
  // Overwriting values
  // ---------------------------------------------------------------------------

  /** Writing only values keeps both chains. */
  twostate lemma LinksKept(N: seq<Node>)
    requires forall n | n in N :: n.next == old(n.next) && n.prev == old(n.prev)
    ensures old(NextChain(N)) ==> NextChain(N)
    ensures old(PrevChain(N)) ==> PrevChain(N)
  {
    if old(NextChain(N)) {
      forall i | 0 <= i < |N| - 1
        ensures LinksForward(N, i)
      {
        assert old(LinksForward(N, i)) && N[i] in N;
      }
      if |N| > 0 {
        assert N[|N| - 1] in N;
      }
    }
    if old(PrevChain(N)) {
      forall i | 0 < i < |N|
        ensures LinksBack(N, i)
      {
        assert old(LinksBack(N, i)) && N[i] in N;
      }
      if |N| > 0 {
        assert N[0] in N;
      }
    }
  }

  /** Writing `d` into node `k` and nothing else replaces digit `k`. */
  twostate lemma ValueSet(N: seq<Node>, new C: seq<int>, new k: int, new d: int)
    requires 0 <= k < |N| && Distinct(N) && old(Holds(N, C))
    requires N[k].value == d
    requires forall n | n in N && n != N[k] :: n.value == old(n.value)
    ensures Holds(N, C[k := d])
  {
    forall i | 0 <= i < |N| && i != k
      ensures N[i].value == C[i]
    {
      if i < k {
        DistinctAt(N, i, k);
      } else {
        DistinctAt(N, k, i);
      }
      assert N[i] in N;
    }
  }

  /** Exchanging the values of nodes `i` and `j` and nothing else exchanges those digits. */
  twostate lemma ValuesSwapped(N: seq<Node>, new C: seq<int>, new i: int, new j: int)
    requires 0 <= i < |N| && 0 <= j < |N| && Distinct(N) && old(Holds(N, C))
    requires N[i].value == C[j] && N[j].value == C[i]
    requires forall n | n in N && n != N[i] && n != N[j] :: n.value == old(n.value)
    ensures Holds(N, C[i := C[j]][j := C[i]])
  {
    forall p | 0 <= p < |N| && p != i && p != j
      ensures N[p].value == C[p]
    {
      if p < i {
        DistinctAt(N, p, i);
      } else {
        DistinctAt(N, i, p);
      }
      if p < j {
        DistinctAt(N, p, j);
      } else {
        DistinctAt(N, j, p);
      }
      assert N[p] in N;
    }
  }

  // ---------------------------------------------------------------------------
  // Rotating the chain by one node
  // ---------------------------------------------------------------------------

  /** `M` is `N` with its first element moved behind the last, stated position by position. */
  ghost predicate ShiftedLeft<T>(N: seq<T>, M: seq<T>)
  {
    && |N| > 0 && |M| == |N|
    && forall j {:trigger M[j]} :: 0 <= j < |M| ==> M[j] == if j < |N| - 1 then N[j + 1] else N[0]
  }

  /** `M` is `N` with its last element moved in front of the first, stated position by position. */
  ghost predicate ShiftedRight<T>(N: seq<T>, M: seq<T>)
  {
    && |N| > 0 && |M| == |N|
    && forall j {:trigger M[j]} :: 0 <= j < |M| ==> M[j] == if j == 0 then N[|N| - 1] else N[j - 1]
  }

  lemma ShiftedSlices<T>(N: seq<T>)
    requires |N| > 0
    ensures ShiftedLeft(N, N[1..] + [N[0]])
    ensures ShiftedRight(N, [N[|N| - 1]] + N[..|N| - 1])
  {
  }

  lemma RotateLeftDistinct(N: seq<Node>, M: seq<Node>)
    requires ShiftedLeft(N, M) && Distinct(N)
    ensures Distinct(M)
  {
    forall i, j | 0 <= i < j < |M|
      ensures M[i] != M[j]
    {
      if j < |M| - 1 {
        DistinctAt(N, i + 1, j + 1);
      } else {
        DistinctAt(N, 0, i + 1);
      }
    }
    DistinctApart(M);
  }

  lemma RotateRightDistinct(N: seq<Node>, M: seq<Node>)
    requires ShiftedRight(N, M) && Distinct(N)
    ensures Distinct(M)
  {
    forall i, j | 0 <= i < j < |M|
      ensures M[i] != M[j]
    {
      if i > 0 {
        DistinctAt(N, i - 1, j - 1);
      } else {
        DistinctAt(N, j - 1, |N| - 1);
      }
    }
    DistinctApart(M);
  }

  /** Moving the head behind the tail, linking old tail to old head, keeps the forward chain. */
  twostate lemma RotateLeftNext(N: seq<Node>, new M: seq<Node>)
    requires ShiftedLeft(N, M) && |N| >= 2 && Distinct(N) && old(NextChain(N))
    requires forall n | n in N && n != N[0] && n != N[|N| - 1] :: n.next == old(n.next)
    requires N[|N| - 1].next == N[0] && N[0].next == null
    ensures NextChain(M)
  {
    forall i | 0 <= i < |M| - 1
      ensures LinksForward(M, i)
    {
      if i < |M| - 2 {
        DistinctAt(N, 0, i + 1);
        DistinctAt(N, i + 1, |N| - 1);
        assert old(LinksForward(N, i + 1));
        assert M[i] == N[i + 1] && M[i + 1] == N[i + 2] && N[i + 1] in N;
      } else {
        assert M[i] == N[|N| - 1] && M[i + 1] == N[0];
      }
    }
    assert M[|M| - 1] == N[0];
  }

  /** Moving the head behind the tail, linking it back to the old tail, keeps the backward chain. */
  twostate lemma RotateLeftPrev(N: seq<Node>, new M: seq<Node>)
    requires ShiftedLeft(N, M) && |N| >= 2 && Distinct(N) && old(PrevChain(N))
    requires forall n | n in N && n != N[0] && n != N[1] :: n.prev == old(n.prev)
    requires N[1].prev == null && N[0].prev == N[|N| - 1]
    ensures PrevChain(M)
  {
    forall i | 0 < i < |M|
      ensures LinksBack(M, i)
    {
      if i < |M| - 1 {
        DistinctAt(N, 0, i + 1);
        DistinctAt(N, 1, i + 1);
        assert old(LinksBack(N, i + 1));
        assert M[i] == N[i + 1] && M[i - 1] == N[i] && N[i + 1] in N;
      } else {
        assert M[i] == N[0] && M[i - 1] == N[|N| - 1];
      }
    }
    assert M[0] == N[1];
  }

  /** Moving the tail in front of the head, linking it to the old head, keeps the forward chain. */
  twostate lemma RotateRightNext(N: seq<Node>, new M: seq<Node>)
    requires ShiftedRight(N, M) && |N| >= 2 && Distinct(N) && old(NextChain(N))
    requires forall n | n in N && n != N[|N| - 1] && n != N[|N| - 2] :: n.next == old(n.next)
    requires N[|N| - 1].next == N[0] && N[|N| - 2].next == null
    ensures NextChain(M)
  {
    forall i | 0 <= i < |M| - 1
      ensures LinksForward(M, i)
    {
      if i > 0 {
        DistinctAt(N, i - 1, |N| - 1);
        DistinctAt(N, i - 1, |N| - 2);
        assert old(LinksForward(N, i - 1));
        assert M[i] == N[i - 1] && M[i + 1] == N[i] && N[i - 1] in N;
      } else {
        assert M[0] == N[|N| - 1] && M[1] == N[0];
      }
    }
    assert M[|M| - 1] == N[|N| - 2];
  }

  /** Moving the tail in front of the head, linking the old head back to it, keeps the backward chain. */
  twostate lemma RotateRightPrev(N: seq<Node>, new M: seq<Node>)
    requires ShiftedRight(N, M) && |N| >= 2 && Distinct(N) && old(PrevChain(N))
    requires forall n | n in N && n != N[0] && n != N[|N| - 1] :: n.prev == old(n.prev)
    requires N[0].prev == N[|N| - 1] && N[|N| - 1].prev == null
    ensures PrevChain(M)
  {
    forall i | 0 < i < |M|
      ensures LinksBack(M, i)
    {
      if i > 1 {
        DistinctAt(N, 0, i - 1);
        DistinctAt(N, i - 1, |N| - 1);
        assert old(LinksBack(N, i - 1));
        assert M[i] == N[i - 1] && M[i - 1] == N[i - 2] && N[i - 1] in N;
      } else {
        assert M[1] == N[0] && M[0] == N[|N| - 1];
      }
    }
    assert M[0] == N[|N| - 1];
  }

  /** Moving the head behind the tail moves its digit behind the others. */
  twostate lemma RotateLeftHolds(N: seq<Node>, new C: seq<int>, new M: seq<Node>, new D: seq<int>)
    requires ShiftedLeft(N, M) && ShiftedLeft(C, D) && old(Holds(N, C))
    requires forall n | n in N :: n.value == old(n.value)
    ensures Holds(M, D)
  {
    forall i | 0 <= i < |M|
      ensures M[i].value == D[i]
    {
      var i' := if i < |N| - 1 then i + 1 else 0;
      assert M[i] == N[i'] && D[i] == C[i'] && N[i'] in N;
    }
  }

  /** Moving the tail in front of the head moves its digit in front of the others. */
  twostate lemma RotateRightHolds(N: seq<Node>, new C: seq<int>, new M: seq<Node>, new D: seq<int>)
    requires ShiftedRight(N, M) && ShiftedRight(C, D) && old(Holds(N, C))
    requires forall n | n in N :: n.value == old(n.value)
    ensures Holds(M, D)
  {
    forall i | 0 <= i < |M|
      ensures M[i].value == D[i]
    {
      var i' := if i == 0 then |N| - 1 else i - 1;
      assert M[i] == N[i'] && D[i] == C[i'] && N[i'] in N;
    }
  }

  /** All of a left rotation at once: the chains, the digits and the node set of the rotated sequence. */
  twostate lemma LeftRotated(N: seq<Node>, new C: seq<int>)
    requires |N| >= 2 && Distinct(N)
    requires old(NextChain(N)) && old(PrevChain(N)) && old(Holds(N, C))
    requires forall n | n in N ::
      && n.value == old(n.value)
      && (n != N[0] && n != N[|N| - 1] ==> n.next == old(n.next))
      && (n != N[0] && n != N[1] ==> n.prev == old(n.prev))
    requires N[|N| - 1].next == N[0] && N[0].next == null
    requires N[1].prev == null && N[0].prev == N[|N| - 1]
    ensures var M := N[1..] + [N[0]];
      && Distinct(M) && NextChain(M) && PrevChain(M) && Holds(M, C[1..] + [C[0]])
      && forall n :: n in M <==> n in N
  {
    var M, D := N[1..] + [N[0]], C[1..] + [C[0]];
    ShiftedSlices(N);
    ShiftedSlices(C);
    RotateLeftNext(N, M);
    RotateLeftPrev(N, M);
    RotateLeftHolds(N, C, M, D);
    RotateLeftDistinct(N, M);
    assert N == [N[0]] + N[1..];
  }

  /** All of a right rotation at once: the chains, the digits and the node set of the rotated sequence. */
  twostate lemma RightRotated(N: seq<Node>, new C: seq<int>)
    requires |N| >= 2 && Distinct(N)
    requires old(NextChain(N)) && old(PrevChain(N)) && old(Holds(N, C))
    requires forall n | n in N ::
      && n.value == old(n.value)
      && (n != N[|N| - 1] && n != N[|N| - 2] ==> n.next == old(n.next))
      && (n != N[0] && n != N[|N| - 1] ==> n.prev == old(n.prev))
    requires N[|N| - 1].next == N[0] && N[|N| - 2].next == null
    requires N[0].prev == N[|N| - 1] && N[|N| - 1].prev == null
    ensures var M := [N[|N| - 1]] + N[..|N| - 1];
      && Distinct(M) && NextChain(M) && PrevChain(M) && Holds(M, [C[|C| - 1]] + C[..|C| - 1])
      && forall n :: n in M <==> n in N
  {
    var M, D := [N[|N| - 1]] + N[..|N| - 1], [C[|C| - 1]] + C[..|C| - 1];
    ShiftedSlices(N);
    ShiftedSlices(C);
    RotateRightNext(N, M);
    RotateRightPrev(N, M);
    RotateRightHolds(N, C, M, D);
    RotateRightDistinct(N, M);
    assert N == N[..|N| - 1] + [N[|N| - 1]];
  }
}

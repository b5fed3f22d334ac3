/**
 * The digit list: a non-negative number stored as a doubly linked list of
 * digits in a fixed base, most significant digit first.
 *
 * Each list keeps, as ghost state, the sequence of its nodes (`Nodes`) and the
 * sequence of their digit values (`Contents`).  `Linked` ties the forward
 * chain, `head`, `tail` and `size` to them; `BackLinked` adds the backward
 * chain; `Valid` is both.
 */
module NumberLists {
  import opened Numerals
  import opened DigitSequences
  import opened NodeChains

  /** The base every publicly constructed list uses. */
  const DEFAULT_BASE: nat := 8
  /** The base `ChangeScale` converts into. */
  const TARGET_BASE: nat := 10

  /** The exceptions the list raises. */
  datatype Error = IndexOutOfBounds | IllegalArgument

  /** The outcome of an operation that returns a value or raises. */
  datatype Result<T> = Ok(value: T) | Err(error: Error)

  /** The outcome of an operation that returns nothing or raises. */
  datatype Outcome = Done | Fail(error: Error)

  class NumberListImpl {
    const base: int
    var head: Node?
    var tail: Node?
    var size: int

    /** The nodes of the list, head first. */
    ghost var Nodes: seq<Node>
    /** The digits of the list, most significant first. */
    ghost var Contents: seq<int>

    /** The forward chain: distinct nodes from `head` to `tail` holding `Contents`, each a digit of `base`. */
    ghost predicate Linked()
      reads this, Nodes
    {
      ForwardShape(base, size, head, tail, Nodes, Contents)
    }

    /** The backward chain: each node's `prev` is its predecessor, and the head has none. */
    ghost predicate BackLinked()
      reads this, Nodes
    {
      PrevChain(Nodes)
    }

    ghost predicate Valid()
      reads this, Nodes
    {
      Linked() && BackLinked()
    }

    /** An empty list in the default base. */
    constructor ()
      ensures Valid() && fresh(this)
      ensures base == DEFAULT_BASE && Contents == []
    {
      base := DEFAULT_BASE;
      head, tail, size := null, null, 0;
      Nodes, Contents := [], [];
    }

    /** An empty list in base `b`. */
    constructor WithBase(b: int)
      requires MIN_BASE <= b <= MAX_BASE
      ensures Valid()
      ensures base == b && Contents == []
    {
      base := b;
      head, tail, size := null, null, 0;
      Nodes, Contents := [], [];
    }

    // -------------------------------------------------------------------------
    // Index checks and node lookup
    // -------------------------------------------------------------------------

    /** Raises IndexOutOfBounds unless `index` names a digit. */
    function CheckElementIndex(index: int): (r: Outcome)
      reads this, Nodes
      requires Linked()
      ensures r == Done <==> 0 <= index < |Contents|
      ensures r != Done ==> r == Fail(IndexOutOfBounds)
    {
      if index < 0 || index >= size then Fail(IndexOutOfBounds) else Done
    }

    /** Raises IndexOutOfBounds unless `index` is an insertion position. */
    function CheckPositionIndex(index: int): (r: Outcome)
      reads this, Nodes
      requires Linked()
      ensures r == Done <==> 0 <= index <= |Contents|
      ensures r != Done ==> r == Fail(IndexOutOfBounds)
    {
      if index < 0 || index > size then Fail(IndexOutOfBounds) else Done
    }

    /** The node at `index`, walking from whichever end is nearer. */
    method NodeAt(index: int) returns (r: Result<Node>)
      requires Valid()
      ensures r.Ok? <==> 0 <= index < |Contents|
      ensures r.Ok? ==> r.value == Nodes[index]
      ensures r.Err? ==> r.error == IndexOutOfBounds
    {
      var check := CheckElementIndex(index);
      if check.Fail? {
        return Err(check.error);
      }
      if index < size / 2 {
        var cur := head;
        var i := 0;
        while i < index
          invariant 0 <= i <= index && cur == Nodes[i]
        {
          NextOf(Nodes, i);
          cur := cur.next;
          i := i + 1;
        }
        return Ok(cur);
      } else {
        var cur := tail;
        var i := size - 1;
        while i > index
          invariant index <= i < size && cur == Nodes[i]
        {
          PrevOf(Nodes, i);
          cur := cur.prev;
          i := i - 1;
        }
        return Ok(cur);
      }
    }

    // -------------------------------------------------------------------------
    // Linking and unlinking single nodes
    // -------------------------------------------------------------------------

    /**
     * Node `k` unlinked, its neighbours bridged both ways, with `head`,
     * `tail`, `size` and the ghost state following: the list is valid again.
     */
    twostate lemma SplicedOut(N: seq<Node>, new C: seq<int>, new k: int)
      requires old(Valid()) && old(Nodes) == N && old(Contents) == C && 0 <= k < |N|
      requires forall n | n in N ::
        && n.value == old(n.value)
        && ((k == 0 || n != N[k - 1]) && n != N[k] ==> n.next == old(n.next))
        && ((k + 1 == |N| || n != N[k + 1]) && n != N[k] ==> n.prev == old(n.prev))
      requires k > 0 ==> N[k - 1].next == (if k + 1 < |N| then N[k + 1] else null)
      requires k + 1 < |N| ==> N[k + 1].prev == (if k > 0 then N[k - 1] else null)
      requires size == |N| - 1
      requires Nodes == N[..k] + N[k + 1..] && Contents == C[..k] + C[k + 1..]
      requires head == if |N| == 1 then null else if k == 0 then N[1] else N[0]
      requires tail == if |N| == 1 then null else if k == |N| - 1 then N[|N| - 2] else N[|N| - 1]
      ensures Valid()
    {
      Unlinked(N, C, k);
      RemoveEnds(N, k);
      InBaseRemove(C, base, k);
    }

    /** Only digits rewritten, in range, with every link kept: the list is valid again. */
    twostate lemma Rewritten()
      requires old(Valid()) && Nodes == old(Nodes) && size == old(size)
      requires head == old(head) && tail == old(tail)
      requires forall n | n in Nodes :: n.next == old(n.next) && n.prev == old(n.prev)
      requires Holds(Nodes, Contents) && InBase(Contents, base)
      ensures Valid()
    {
      LinksKept(Nodes);
    }

    /**
     * The head node moved behind the tail, with `head`, `tail` and the ghost
     * state following: the list is valid again and has the same nodes.
     */
    twostate lemma RotatedOnceLeft(N: seq<Node>, new C: seq<int>)
      requires old(Valid()) && old(Nodes) == N && old(Contents) == C && |N| >= 2
      requires forall n | n in N ::
        && n.value == old(n.value)
        && (n != N[0] && n != N[|N| - 1] ==> n.next == old(n.next))
        && (n != N[0] && n != N[1] ==> n.prev == old(n.prev))
      requires N[|N| - 1].next == N[0] && N[0].next == null
      requires N[1].prev == null && N[0].prev == N[|N| - 1]
      requires size == |N| && head == N[1] && tail == N[0]
      requires Nodes == N[1..] + [N[0]] && Contents == C[1..] + [C[0]]
      ensures Valid() && forall n :: n in Nodes <==> n in N
    {
      LeftRotated(N, C);
      RotationsPermute(C);
      InBaseMembers(C, Contents, base);
    }

    /**
     * The tail node moved before the head, with `head`, `tail` and the ghost
     * state following: the list is valid again and has the same nodes.
     */
    twostate lemma RotatedOnceRight(N: seq<Node>, new C: seq<int>)
      requires old(Valid()) && old(Nodes) == N && old(Contents) == C && |N| >= 2
      requires forall n | n in N ::
        && n.value == old(n.value)
        && (n != N[|N| - 1] && n != N[|N| - 2] ==> n.next == old(n.next))
        && (n != N[0] && n != N[|N| - 1] ==> n.prev == old(n.prev))
      requires N[|N| - 1].next == N[0] && N[|N| - 2].next == null
      requires N[0].prev == N[|N| - 1] && N[|N| - 1].prev == null
      requires size == |N| && head == N[|N| - 1] && tail == N[|N| - 2]
      requires Nodes == [N[|N| - 1]] + N[..|N| - 1] && Contents == [C[|C| - 1]] + C[..|C| - 1]
      ensures Valid() && forall n :: n in Nodes <==> n in N
    {
      RightRotated(N, C);
      RotationsPermute(C);
      InBaseMembers(C, Contents, base);
    }

    /**
     * A node holding `d` spliced in at position `k`, linked both ways to its
     * neighbours, with `head`, `tail`, `size` and the ghost state following:
     * the list is valid again.
     */
    twostate lemma SplicedIn(N: seq<Node>, new C: seq<int>, new k: int, new node: Node, new d: int)
      requires old(Valid()) && old(Nodes) == N && old(Contents) == C
      requires 0 <= k <= |N| && node !in N && 0 <= d < base
      requires forall n | n in N ::
        && n.value == old(n.value)
        && ((k == 0 || n != N[k - 1]) ==> n.next == old(n.next))
        && ((k == |N| || n != N[k]) ==> n.prev == old(n.prev))
      requires k > 0 ==> N[k - 1].next == node
      requires k < |N| ==> N[k].prev == node
      requires node.next == (if k < |N| then N[k] else null)
      requires node.prev == (if k > 0 then N[k - 1] else null)
      requires node.value == d
      requires size == |N| + 1
      requires Nodes == N[..k] + [node] + N[k..] && Contents == C[..k] + [d] + C[k..]
      requires head == (if k == 0 then node else N[0])
      requires tail == (if k == |N| then node else N[|N| - 1])
      ensures Valid()
    {
      Inserted(N, C, k, node, d);
      InsertEnds(N, k, node);
      InBaseInsert(C, base, k, d);
    }

    /** Detaches `node`, the node at position `k`, closing the gap in both directions. */
    method Unlink(node: Node, ghost k: int)
      requires Valid() && 0 <= k < |Nodes| && Nodes[k] == node
      modifies this, node, node.prev, node.next
      ensures Valid()
      ensures Nodes == old(Nodes[..k] + Nodes[k + 1..])
      ensures Contents == old(Contents[..k] + Contents[k + 1..])
      ensures node.prev == null && node.next == null
      ensures forall n :: n in Nodes ==> n in old(Nodes)
    {
      ghost var N, C := Nodes, Contents;
      var prev := node.prev;
      var next := node.next;
      PrevOf(N, k);
      NextOf(N, k);
      if k > 0 {
        DistinctAt(N, k - 1, k);
      }
      if k + 1 < |N| {
        DistinctAt(N, k, k + 1);
      }
      if prev == null {
        head := next;
      } else {
        prev.next := next;
      }
      if next == null {
        tail := prev;
      } else {
        next.prev := prev;
      }
      node.prev := null;
      node.next := null;
      size, Nodes, Contents := size - 1, N[..k] + N[k + 1..], C[..k] + C[k + 1..];
      SplicedOut(N, C, k);
    }

    /**
     * Splices a new node holding `d` in front of `next`, the node at position
     * `k`: the insertion step of `AddAt` and of `AddAllAt`.
     */
    method LinkBefore(next: Node, ghost k: int, d: int) returns (node: Node)
      requires Valid() && 0 <= k < |Nodes| && Nodes[k] == next && 0 <= d < base
      modifies this, next, next.prev
      ensures Valid() && fresh(node) && next.prev == node
      ensures |Nodes| == |old(Nodes)| + 1 && Nodes[k + 1] == next
      ensures Nodes == old(Nodes[..k]) + [node] + old(Nodes[k..])
      ensures Contents == old(Contents[..k]) + [d] + old(Contents[k..])
    {
      ghost var N, C := Nodes, Contents;
      var prev := next.prev;
      PrevOf(N, k);
      node := new Node(d);
      node.next := next;
      next.prev := node;
      if prev == null {
        head := node;
      } else {
        prev.next := node;
        node.prev := prev;
      }
      size, Nodes, Contents := size + 1, N[..k] + [node] + N[k..], C[..k] + [d] + C[k..];
      SplicedIn(N, C, k, node, d);
    }

    /**
     * Appends a node holding `d` at the tail, linked in both directions.
     * Callers pass digits already known to be in range.
     */
    method AddDigitRaw(d: int)
      requires Valid() && 0 <= d < base
      modifies this, tail
      ensures Valid()
      ensures tail != null && fresh(tail) && Nodes == old(Nodes) + [tail]
      ensures Contents == old(Contents) + [d]
    {
      ghost var N, C := Nodes, Contents;
      var node := new Node(d);
      if head == null {
        head, tail := node, node;
      } else {
        tail.next := node;
        node.prev := tail;
        tail := node;
      }
      assert N[..|N|] + [node] + N[|N|..] == N + [node];
      assert C[..|C|] + [d] + C[|C|..] == C + [d];
      size, Nodes, Contents := size + 1, N + [node], C + [d];
      SplicedIn(N, C, |N|, node, d);
    }

    /**
     * Appending as the unchecked append is written: the new tail is linked
     * forwards but its `prev` is never set, so from two digits on the
     * backward chain is broken.
     */
    method AddDigitRawAsWritten(d: int)
      requires Linked() && 0 <= d < base
      modifies this, tail
      ensures Linked()
      ensures tail != null && fresh(tail) && Nodes == old(Nodes) + [tail]
      ensures Contents == old(Contents) + [d]
      ensures Nodes[|Nodes| - 1].prev == null
      ensures forall n | n in old(Nodes) :: n.prev == old(n.prev)
      ensures |old(Contents)| > 0 ==> !BackLinked()
    {
      ghost var N, C := Nodes, Contents;
      var node := new Node(d);
      if head == null {
        head, tail := node, node;
      } else {
        tail.next := node;
        tail := node;
      }
      assert N[..|N|] + [node] + N[|N|..] == N + [node];
      assert C[..|C|] + [d] + C[|C|..] == C + [d];
      size, Nodes, Contents := size + 1, N + [node], C + [d];
      InsertedForward(N, C, |N|, node, d);
      InsertEnds(N, |N|, node);
      InBaseInsert(C, base, |N|, d);
      if |N| > 0 {
        assert Nodes[|N|] == node && Nodes[|N| - 1] == N[|N| - 1];
        assert !LinksBack(Nodes, |N|);
      }
    }

    // -------------------------------------------------------------------------
    // Appending and positional insertion
    // -------------------------------------------------------------------------

    /** Appends digit `e`; raises IllegalArgument when `e` is not a digit of the base. */
    method Add(e: int) returns (r: Outcome)
      requires Valid()
      modifies this, tail
      ensures Valid()
      ensures r == if 0 <= e < base then Done else Fail(IllegalArgument)
      ensures Contents == if r == Done then old(Contents) + [e] else old(Contents)
      ensures r == Done ==> tail != null && fresh(tail) && Nodes == old(Nodes) + [tail]
      ensures r != Done ==> Nodes == old(Nodes)
    {
      if e < 0 || e >= base {
        return Fail(IllegalArgument);
      }
      AddDigitRaw(e);
      return Done;
    }

    /**
     * Inserts digit `e` at `index`; `index == size` appends.  Raises
     * IndexOutOfBounds for any other index outside `[0, size)` before
     * looking at the digit, and IllegalArgument for a digit outside the base.
     */
    method AddAt(index: int, e: int) returns (r: Outcome)
      requires Valid()
      modifies this, Nodes
      ensures Valid()
      ensures r == if !(0 <= index <= |old(Contents)|) then Fail(IndexOutOfBounds)
                   else if !(0 <= e < base) then Fail(IllegalArgument)
                   else Done
      ensures Contents == if r == Done then old(Contents[..index]) + [e] + old(Contents[index..]) else old(Contents)
      ensures fresh(set n | n in Nodes && n !in old(Nodes))
    {
      if index == size {
        r := Add(e);
        assert old(Contents[..index]) == old(Contents) && old(Contents[index..]) == [];
        assert (set n | n in Nodes && n !in old(Nodes)) <= if r == Done then {tail} else {};
        return;
      }
      var check := CheckPositionIndex(index);
      if check.Fail? {
        return check;
      }
      if e < 0 || e >= base {
        return Fail(IllegalArgument);
      }
      InsertAt(index, e);
      return Done;
    }

    /** The in-range case of AddAt: links a new node for `e` in front of the node at `index`. */
    method InsertAt(index: int, e: int)
      requires Valid() && 0 <= index < |Contents| && 0 <= e < base
      modifies this, Nodes
      ensures Valid()
      ensures Contents == old(Contents[..index]) + [e] + old(Contents[index..])
      ensures fresh(set n | n in Nodes && n !in old(Nodes))
    {
      var found := NodeAt(index);
      PrevOf(Nodes, index);
      var node := LinkBefore(found.value, index, e);
      forall n | n in Nodes && n !in old(Nodes)
        ensures n == node
      {
      }
    }

    // -------------------------------------------------------------------------
    // Access by position
    // -------------------------------------------------------------------------

    /** The digit at `index`; raises IndexOutOfBounds unless `0 <= index < size`. */
    method Get(index: int) returns (r: Result<int>)
      requires Valid()
      ensures r == if 0 <= index < |Contents| then Ok(Contents[index]) else Err(IndexOutOfBounds)
    {
      var found := NodeAt(index);
      if found.Err? {
        return Err(found.error);
      }
      return Ok(found.value.value);
    }

    /**
     * Overwrites the digit at `index` with `e` and returns the digit it
     * replaced.  The digit is checked before the index.
     */
    method Set(index: int, e: int) returns (r: Result<int>)
      requires Valid()
      modifies this, Nodes
      ensures Valid() && Nodes == old(Nodes)
      ensures r == if !(0 <= e < base) then Err(IllegalArgument)
                   else if !(0 <= index < |old(Contents)|) then Err(IndexOutOfBounds)
                   else Ok(old(Contents[index]))
      ensures Contents == if r.Ok? then old(Contents[index := e]) else old(Contents)
    {
      if e < 0 || e >= base {
        return Err(IllegalArgument);
      }
      var found := NodeAt(index);
      if found.Err? {
        return Err(found.error);
      }
      var node := found.value;
      var previous := node.value;
      node.value := e;
      ghost var C := Contents;
      Contents := C[index := e];
      ValueSet(Nodes, C, index, e);
      InBaseUpdate(C, base, index, e);
      Rewritten();
      return Ok(previous);
    }
  
    // -------------------------------------------------------------------------
    // Removal
    // -------------------------------------------------------------------------

    /** Removes and returns the digit at `index`; raises IndexOutOfBounds outside `[0, size)`. */
    method RemoveAt(index: int) returns (r: Result<int>)
      requires Valid()
      modifies this, Nodes
      ensures Valid()
      ensures r == if 0 <= index < |old(Contents)| then Ok(old(Contents[index])) else Err(IndexOutOfBounds)
      ensures Contents == if r.Ok? then old(Contents[..index] + Contents[index + 1..]) else old(Contents)
      ensures forall n :: n in Nodes ==> n in old(Nodes)
    {
      var found := NodeAt(index);
      if found.Err? {
        return Err(found.error);
      }
      var node := found.value;
      var digit := node.value;
      PrevOf(Nodes, index);
      NextOf(Nodes, index);
      Unlink(node, index);
      return Ok(digit);
    }

    /** Removes the first occurrence of digit `x`, reporting whether there was one. */
    method Remove(x: int) returns (removed: bool)
      requires Valid()
      modifies this, Nodes
      ensures Valid()
      ensures removed == (x in old(Contents))
      ensures var k := FirstIndex(old(Contents), x);
              Contents == if removed then old(Contents[..k] + Contents[k + 1..]) else old(Contents)
      ensures forall n :: n in Nodes ==> n in old(Nodes)
    {
      var cur := head;
      ghost var i := 0;
      while cur != null && cur.value != x
        modifies {}
        invariant 0 <= i <= |Nodes| && cur == (if i < |Nodes| then Nodes[i] else null)
        invariant x !in Contents[..i]
        decreases |Nodes| - i
      {
        assert Contents[..i + 1] == Contents[..i] + [Contents[i]];
        NextOf(Nodes, i);
        cur := cur.next;
        i := i + 1;
      }
      if cur == null {
        assert Contents[..i] == Contents;
        return false;
      }
      assert FirstIndex(Contents, x) == i;
      PrevOf(Nodes, i);
      NextOf(Nodes, i);
      Unlink(cur, i);
      return true;
    }

    // -------------------------------------------------------------------------
    // Exchange and rotation
    // -------------------------------------------------------------------------

    /**
     * Exchanges the digits at `i` and `j`: false when either is outside
     * `[0, size)`, true otherwise (with nothing to do when they are equal).
     */
    method Swap(i: int, j: int) returns (r: bool)
      requires Valid()
      modifies this, Nodes
      ensures Valid() && Nodes == old(Nodes)
      ensures r == (0 <= i < |old(Contents)| && 0 <= j < |old(Contents)|)
      ensures Contents == if r then Swapped(old(Contents), i, j) else old(Contents)
    {
      if i < 0 || i >= size || j < 0 || j >= size {
        return false;
      }
      if i == j {
        assert Swapped(Contents, i, j) == Contents;
        return true;
      }
      var first := NodeAt(i);
      var second := NodeAt(j);
      var a, b := first.value, second.value;
      var temp := a.value;
      a.value := b.value;
      b.value := temp;
      ghost var C := Contents;
      Contents := Swapped(C, i, j);
      ValuesSwapped(Nodes, C, i, j);
      InBaseUpdate(C, base, i, C[j]);
      InBaseUpdate(C[i := C[j]], base, j, C[i]);
      Rewritten();
      return true;
    }

    /** Moves the first digit to the end; lists of fewer than two digits are left alone. */
    method ShiftLeft()
      requires Valid()
      modifies this, Nodes
      ensures Valid()
      ensures Contents == RotatedLeft(old(Contents))
      ensures forall n :: n in Nodes <==> n in old(Nodes)
    {
      if size <= 1 {
        return;
      }
      ghost var N, C := Nodes, Contents;
      var first := head;
      var second := first.next;
      NextOf(N, 0);
      DistinctAt(N, 0, 1);
      DistinctAt(N, 0, |N| - 1);
      head := second;
      second.prev := null;
      tail.next := first;
      first.prev := tail;
      first.next := null;
      tail := first;
      Nodes, Contents := N[1..] + [N[0]], C[1..] + [C[0]];
      RotatedOnceLeft(N, C);
    }

    /** Moves the last digit to the front; lists of fewer than two digits are left alone. */
    method ShiftRight()
      requires Valid()
      modifies this, Nodes
      ensures Valid()
      ensures Contents == RotatedRight(old(Contents))
      ensures forall n :: n in Nodes <==> n in old(Nodes)
    {
      if size <= 1 {
        return;
      }
      ghost var N, C := Nodes, Contents;
      var last := tail;
      var before := last.prev;
      PrevOf(N, |N| - 1);
      DistinctAt(N, |N| - 2, |N| - 1);
      DistinctAt(N, 0, |N| - 1);
      tail := before;
      before.next := null;
      last.next := head;
      head.prev := last;
      last.prev := null;
      head := last;
      Nodes, Contents := [N[|N| - 1]] + N[..|N| - 1], [C[|C| - 1]] + C[..|C| - 1];
      RotatedOnceRight(N, C);
    }

    // -------------------------------------------------------------------------
    // Clearing
    // -------------------------------------------------------------------------

    /**
     * Empties the list, detaching every node in both directions.  Only the
     * forward chain is needed, so this also empties a list whose backward
     * chain is broken.
     */
    method Clear()
      requires Linked()
      modifies this, Nodes
      ensures Valid() && Contents == [] && Nodes == []
      ensures forall n :: n in old(Nodes) ==> n.prev == null && n.next == null
    {
      ghost var N := Nodes;
      DistinctApart(N);
      var cur := head;
      ghost var i := 0;
      while cur != null
        invariant 0 <= i <= |N| && cur == (if i < |N| then N[i] else null)
        invariant forall j :: 0 <= j < i ==> N[j].prev == null && N[j].next == null
        invariant forall j :: i <= j < |N| ==> N[j].next == old(N[j].next)
        decreases |N| - i
      {
        if i + 1 < |N| {
          assert old(LinksForward(N, i));
        }
        var next := cur.next;
        cur.prev := null;
        cur.next := null;
        cur := next;
        i := i + 1;
      }
      head, tail, size := null, null, 0;
      Nodes, Contents := [], [];
    }
  
    // -------------------------------------------------------------------------
    // Size and searching
    // -------------------------------------------------------------------------

    function Size(): (n: int)
      reads this, Nodes
      requires Linked()
      ensures n == |Contents|
    {
      size
    }

    function IsEmpty(): (r: bool)
      reads this, Nodes
      requires Linked()
      ensures r <==> Contents == []
    {
      size == 0
    }

    /** Whether digit `x` occurs in the list, walking forwards from the head. */
    method Contains(x: int) returns (r: bool)
      requires Linked()
      ensures r == (x in Contents)
    {
      var cur := head;
      ghost var i := 0;
      while cur != null
        invariant 0 <= i <= |Nodes| && cur == (if i < |Nodes| then Nodes[i] else null)
        invariant x !in Contents[..i]
        decreases |Nodes| - i
      {
        if cur.value == x {
          return true;
        }
        assert Contents[..i + 1] == Contents[..i] + [Contents[i]];
        NextOf(Nodes, i);
        cur := cur.next;
        i := i + 1;
      }
      assert Contents[..i] == Contents;
      return false;
    }

    /** The position of the first occurrence of digit `x`, or -1, walking forwards from the head. */
    method IndexOf(x: int) returns (r: int)
      requires Linked()
      ensures r == FirstIndex(Contents, x)
    {
      var cur := head;
      var index := 0;
      while cur != null
        invariant 0 <= index <= |Nodes| && cur == (if index < |Nodes| then Nodes[index] else null)
        invariant x !in Contents[..index]
        decreases |Nodes| - index
      {
        if cur.value == x {
          return index;
        }
        assert Contents[..index + 1] == Contents[..index] + [Contents[index]];
        NextOf(Nodes, index);
        cur := cur.next;
        index := index + 1;
      }
      assert Contents[..index] == Contents;
      return -1;
    }

    /** The position of the last occurrence of digit `x`, or -1, walking backwards from the tail. */
    method LastIndexOf(x: int) returns (r: int)
      requires Valid()
      ensures r == LastIndex(Contents, x)
    {
      var cur := tail;
      var index := size - 1;
      while cur != null
        invariant -1 <= index < |Nodes| && cur == (if index >= 0 then Nodes[index] else null)
        invariant x !in Contents[index + 1..]
        decreases index + 1
      {
        if cur.value == x {
          return index;
        }
        assert Contents[index..] == [Contents[index]] + Contents[index + 1..];
        PrevOf(Nodes, index);
        cur := cur.prev;
        index := index - 1;
      }
      return -1;
    }

    /** A fresh array holding the digits in order. */
    method ToArray() returns (a: array<int>)
      requires Linked()
      ensures fresh(a) && a[..] == Contents
    {
      a := new int[size];
      var cur := head;
      var i := 0;
      while cur != null
        invariant 0 <= i <= |Nodes| && cur == (if i < |Nodes| then Nodes[i] else null)
        invariant a[..i] == Contents[..i]
        decreases |Nodes| - i
      {
        a[i] := cur.value;
        NextOf(Nodes, i);
        cur := cur.next;
        i := i + 1;
      }
      assert a[..] == a[..i];
    }

    /**
     * Whether `other` holds the same digits in the same order.  The bases of
     * the two lists are not compared.
     */
    method Equals(other: NumberListImpl?) returns (r: bool)
      requires Valid() && (other != null ==> other.Valid())
      ensures r == (other != null && Contents == other.Contents)
    {
      if this == other {
        return true;
      }
      if other == null {
        return false;
      }
      if size != other.size {
        return false;
      }
      var i := 0;
      while i < size
        invariant 0 <= i <= size
        invariant Contents[..i] == other.Contents[..i]
      {
        var theirs := other.Get(i);
        var mine := Get(i);
        if mine.value != theirs.value {
          return false;
        }
        assert Contents[..i + 1] == Contents[..i] + [Contents[i]];
        assert other.Contents[..i + 1] == other.Contents[..i] + [other.Contents[i]];
        i := i + 1;
      }
      assert Contents == Contents[..i] && other.Contents == other.Contents[..i];
      return true;
    }

    /** Whether every digit of `c` occurs in the list. */
    method ContainsAll(c: seq<int>) returns (r: bool)
      requires Linked()
      ensures r == forall x :: x in c ==> x in Contents
    {
      var i := 0;
      while i < |c|
        invariant 0 <= i <= |c|
        invariant forall k :: 0 <= k < i ==> c[k] in Contents
      {
        var found := Contains(c[i]);
        if !found {
          return false;
        }
        i := i + 1;
      }
      return true;
    }

    // -------------------------------------------------------------------------
    // Bulk insertion
    // -------------------------------------------------------------------------

    /** One round of `AddAll`: appends `c[i]` when it is a digit of the base, and changes nothing otherwise. */
    method AppendStep(ghost start: seq<int>, c: seq<int>, i: int) returns (ok: bool)
      requires Valid() && 0 <= i < |c| && Contents == start + c[..i]
      modifies this, tail
      ensures Valid()
      ensures ok == (0 <= c[i] < base)
      ensures Contents == if ok then start + c[..i + 1] else old(Contents)
      ensures ok ==> tail != null && fresh(tail)
      ensures fresh(set n | n in Nodes && n !in old(Nodes))
    {
      AppendGrows(start, c, i);
      var outcome := Add(c[i]);
      ok := outcome == Done;
      assert (set n | n in Nodes && n !in old(Nodes)) <= if ok then {tail} else {};
    }

    /**
     * Appends the digits of `c` in order: false when `c` is empty.  A digit
     * outside the base raises IllegalArgument, and the digits before it stay
     * appended.
     */
    method AddAll(c: seq<int>) returns (r: Result<bool>)
      requires Valid()
      modifies this, tail
      ensures Valid()
      ensures r == if c == [] then Ok(false)
                   else if FirstOutOfRange(c, base) < |c| then Err(IllegalArgument)
                   else Ok(true)
      ensures Contents == old(Contents) + c[..FirstOutOfRange(c, base)]
      ensures fresh(set n | n in Nodes && n !in old(Nodes))
    {
      if |c| == 0 {
        return Ok(false);
      }
      ghost var start := Contents;
      ghost var accepted := FirstOutOfRange(c, base);
      var i := 0;
      while i < |c|
        invariant 0 <= i <= accepted
        invariant Valid() && Contents == start + c[..i]
        invariant tail == old(tail) || fresh(tail)
        invariant fresh(set n | n in Nodes && n !in old(Nodes))
      {
        var ok := AppendStep(start, c, i);
        if !ok {
          assert i == accepted;
          return Err(IllegalArgument);
        }
        assert i < accepted;
        i := i + 1;
      }
      assert i == accepted == |c|;
      return Ok(true);
    }

    /**
     * Inserts the digits of `c`, in order, in front of position `index`:
     * false when `c` is empty (whatever the index), IndexOutOfBounds for an
     * index outside `[0, size]`, and IllegalArgument at the first digit
     * outside the base, the digits before it staying inserted.
     */
    method AddAllAt(index: int, c: seq<int>) returns (r: Result<bool>)
      requires Valid()
      modifies this, Nodes
      ensures Valid()
      ensures r == if c == [] then Ok(false)
                   else if !(0 <= index <= |old(Contents)|) then Err(IndexOutOfBounds)
                   else if FirstOutOfRange(c, base) < |c| then Err(IllegalArgument)
                   else Ok(true)
      ensures Contents == if c == [] || !(0 <= index <= |old(Contents)|) then old(Contents)
                          else old(Contents[..index]) + c[..FirstOutOfRange(c, base)] + old(Contents[index..])
      ensures fresh(set n | n in Nodes && n !in old(Nodes))
    {
      if |c| == 0 {
        return Ok(false);
      }
      var check := CheckPositionIndex(index);
      if check.Fail? {
        return Err(check.error);
      }
      if index == size {
        assert old(Contents[..index]) == old(Contents) && old(Contents[index..]) == [];
        r := AddAll(c);
        return;
      }
      var found := NodeAt(index);
      PrevOf(Nodes, index);
      var count := InsertBefore(found.value, index, c);
      r := if count < |c| then Err(IllegalArgument) else Ok(true);
    }

    /** One step of `InsertBefore`: links `c[i]` in front of `next`, right after the `c[..i]` already inserted. */
    method InsertStep(next: Node, ghost at: int, ghost before: seq<int>, c: seq<int>, i: int, ghost after: seq<int>)
      returns (ghost moved: int, ghost node: Node)
      requires Valid() && 0 <= at < |Nodes| && Nodes[at] == next
      requires 0 <= i < |c| && 0 <= c[i] < base
      requires Contents == before + c[..i] + after && at == |before| + i
      modifies this, next, next.prev
      ensures Valid() && fresh(node) && next.prev == node
      ensures moved == at + 1 && moved < |Nodes| && Nodes[moved] == next
      ensures Contents == before + c[..i + 1] + after
      ensures forall n :: n in Nodes ==> n in old(Nodes) || n == node
    {
      moved := at + 1;
      InsertionGrows(before, c, after, i, at, c[i]);
      node := LinkBefore(next, at, c[i]);
    }

    /**
     * The insertion loop of `AddAllAt`: links the digits of `c`, one by one,
     * in front of `next`, the node at position `k`, stopping at the first
     * digit outside the base.
     */
    method InsertBefore(next: Node, ghost k: int, c: seq<int>) returns (count: nat)
      requires Valid() && 0 <= k < |Nodes| && Nodes[k] == next
      modifies this, next, next.prev
      ensures Valid()
      ensures count == FirstOutOfRange(c, base)
      ensures Contents == old(Contents[..k]) + c[..count] + old(Contents[k..])
      ensures fresh(set n | n in Nodes && n !in old(Nodes))
    {
      ghost var before, after := Contents[..k], Contents[k..];
      ghost var at := k;
      ghost var added: set<Node> := {};
      count := 0;
      while count < |c| && 0 <= c[count] < base
        invariant 0 <= count <= FirstOutOfRange(c, base) && at == k + count
        invariant Valid()
        invariant Contents == before + c[..count] + after
        invariant at < |Nodes| && Nodes[at] == next
        invariant next.prev == old(next.prev) || next.prev in added
        invariant fresh(added)
        invariant forall n :: n in Nodes ==> n in old(Nodes) || n in added
      {
        ghost var node;
        at, node := InsertStep(next, at, before, c, count, after);
        added := added + {node};
        count := count + 1;
      }
      StopsAtFirstOutOfRange(c, base, count);
    }

    // -------------------------------------------------------------------------
    // Bulk removal
    // -------------------------------------------------------------------------

    /**
     * The walk shared by `RemoveAll` and `RetainAll`: unlinks, head to tail,
     * every node whose digit is in `c` exactly when `retain` is false, and
     * reports whether it unlinked any.
     */
    method Sift(c: set<int>, retain: bool) returns (modified: bool)
      requires Valid()
      modifies this, Nodes
      ensures Valid()
      ensures Contents == Filter(old(Contents), c, retain)
      ensures forall n :: n in Nodes ==> n in old(Nodes)
      ensures modified <==> exists i :: 0 <= i < |old(Contents)| && (old(Contents)[i] in c <==> !retain)
    {
      ghost var N, C := Nodes, Contents;
      modified := false;
      var cur := head;
      ghost var kept, rest, F, D, R := [], N, [], [], C;
      while cur != null
        invariant Valid() && Nodes == kept + rest && Contents == F + R
        invariant |kept| == |F| && |rest| == |R| && D + R == C
        invariant cur == (if rest == [] then null else rest[0])
        invariant F == Filter(D, c, retain)
        invariant forall x :: x in Nodes ==> x in N
        invariant modified <==> |F| < |D|
        decreases |rest|
      {
        var next, keep;
        ghost var kept', F';
        next, keep, kept', F' := SiftStep(cur, kept, rest, F, R, c, retain, N);
        FilterWalkStep(kept, rest, F, D, R, c, retain, keep, kept', F');
        modified := modified || !keep;
        cur, kept, F := next, kept', F';
        rest, D, R := rest[1..], D + [R[0]], R[1..];
      }
      assert D == C;
      FilterShortens(C, c, retain);
    }

    /**
     * One step of `Sift`: `cur`, the first of the nodes `rest` still to be
     * visited, follows the nodes `kept` so far; it is kept too when its digit
     * is in `c` exactly when `retain` holds, and is unlinked otherwise.
     */
    method SiftStep(cur: Node, ghost kept: seq<Node>, ghost rest: seq<Node>, ghost F: seq<int>, ghost R: seq<int>,
                    c: set<int>, retain: bool, ghost S: seq<Node>)
      returns (next: Node?, keep: bool, ghost kept': seq<Node>, ghost F': seq<int>)
      requires Valid() && Nodes == kept + rest && Contents == F + R
      requires rest != [] && cur == rest[0] && |F| == |kept|
      requires forall x :: x in Nodes ==> x in S
      modifies this, S
      ensures forall x :: x in Nodes ==> x in S
      ensures keep <==> (R[0] in c <==> retain)
      ensures next == if |rest| == 1 then null else rest[1]
      ensures kept' == if keep then kept + [cur] else kept
      ensures F' == if keep then F + [R[0]] else F
      ensures Valid() && Nodes == kept' + rest[1..] && Contents == F' + R[1..]
    {
      var k := |kept|;
      assert Nodes[k] == cur && Contents[k] == R[0] && cur.value == R[0];
      assert cur.prev == if k == 0 then null else kept[k - 1] by {
        PrevOf(Nodes, k);
        if k > 0 {
          assert Nodes[k - 1] == kept[k - 1];
        }
      }
      assert cur.next == if |rest| == 1 then null else rest[1] by {
        NextOf(Nodes, k);
        if |rest| > 1 {
          assert Nodes[k + 1] == rest[1];
        }
      }
      next := cur.next;
      keep := (cur.value in c) == retain;
      if keep {
        HeadMoved(kept, rest);
        HeadMoved(F, R);
        kept', F' := kept + [cur], F + [R[0]];
      } else {
        HeadDropped(kept, rest);
        HeadDropped(F, R);
        assert Nodes[k] in Nodes && (k > 0 ==> Nodes[k - 1] in Nodes) && (k + 1 < |Nodes| ==> Nodes[k + 1] in Nodes);
        Unlink(cur, k);
        kept', F' := kept, F;
      }
    }

    /** Removes every digit that is in `c`: false at once when `c` is empty, otherwise whether any was removed. */
    method RemoveAll(c: set<int>) returns (modified: bool)
      requires Valid()
      modifies this, Nodes
      ensures Valid()
      ensures Contents == Filter(old(Contents), c, false)
      ensures forall n :: n in Nodes ==> n in old(Nodes)
      ensures modified <==> exists i :: 0 <= i < |old(Contents)| && old(Contents)[i] in c
    {
      if |c| == 0 {
        FilterKeepsAll(Contents, c, false);
        return false;
      }
      modified := Sift(c, false);
    }

    /** Removes every digit that is not in `c`, reporting whether any was removed. */
    method RetainAll(c: set<int>) returns (modified: bool)
      requires Valid()
      modifies this, Nodes
      ensures Valid()
      ensures Contents == Filter(old(Contents), c, true)
      ensures forall n :: n in Nodes ==> n in old(Nodes)
      ensures modified <==> exists i :: 0 <= i < |old(Contents)| && old(Contents)[i] !in c
    {
      modified := Sift(c, true);
    }

    // -------------------------------------------------------------------------
    // Sorting
    // -------------------------------------------------------------------------

    /**
     * The inner scan of the ascending selection sort: the position of the
     * first least digit at or after `i`.
     */
    method LeastFrom(i: int) returns (least: int)
      requires Valid() && 0 <= i < |Contents|
      ensures i <= least < |Contents|
      ensures forall q :: i <= q < |Contents| ==> Contents[least] <= Contents[q]
      ensures forall q :: i <= q < least ==> Contents[least] < Contents[q]
    {
      least := i;
      var j := i + 1;
      while j < size
        invariant i + 1 <= j <= size && i <= least < j
        invariant forall q :: i <= q < j ==> Contents[least] <= Contents[q]
        invariant forall q :: i <= q < least ==> Contents[least] < Contents[q]
      {
        var candidate := Get(j);
        var current := Get(least);
        if candidate.value < current.value {
          least := j;
        }
        j := j + 1;
      }
    }

    /**
     * The inner scan of the descending selection sort: the position of the
     * first greatest digit at or after `i`.
     */
    method GreatestFrom(i: int) returns (greatest: int)
      requires Valid() && 0 <= i < |Contents|
      ensures i <= greatest < |Contents|
      ensures forall q :: i <= q < |Contents| ==> Contents[greatest] >= Contents[q]
      ensures forall q :: i <= q < greatest ==> Contents[greatest] > Contents[q]
    {
      greatest := i;
      var j := i + 1;
      while j < size
        invariant i + 1 <= j <= size && i <= greatest < j
        invariant forall q :: i <= q < j ==> Contents[greatest] >= Contents[q]
        invariant forall q :: i <= q < greatest ==> Contents[greatest] > Contents[q]
      {
        var candidate := Get(j);
        var current := Get(greatest);
        if candidate.value > current.value {
          greatest := j;
        }
        j := j + 1;
      }
    }

    /** Selection sort into ascending order through `Get` and `Swap`; the nodes stay in place. */
    method SortAscending()
      requires Valid()
      modifies this, Nodes
      ensures Valid() && Nodes == old(Nodes)
      ensures Ascending(Contents) && multiset(Contents) == multiset(old(Contents))
    {
      if size < 2 {
        return;
      }
      var i := 0;
      while i < size - 1
        invariant 0 <= i <= size - 1
        invariant Valid() && Nodes == old(Nodes)
        invariant multiset(Contents) == multiset(old(Contents))
        invariant SettledAscending(Contents, i)
      {
        var least := LeastFrom(i);
        ghost var C := Contents;
        SelectLeast(C, i, least);
        SwappedPermutes(C, i, least);
        if least != i {
          var swapped := Swap(i, least);
        }
        i := i + 1;
      }
    }

    /** Selection sort into descending order through `Get` and `Swap`; the nodes stay in place. */
    method SortDescending()
      requires Valid()
      modifies this, Nodes
      ensures Valid() && Nodes == old(Nodes)
      ensures Descending(Contents) && multiset(Contents) == multiset(old(Contents))
    {
      if size < 2 {
        return;
      }
      var i := 0;
      while i < size - 1
        invariant 0 <= i <= size - 1
        invariant Valid() && Nodes == old(Nodes)
        invariant multiset(Contents) == multiset(old(Contents))
        invariant SettledDescending(Contents, i)
      {
        var greatest := GreatestFrom(i);
        ghost var C := Contents;
        SelectGreatest(C, i, greatest);
        SwappedPermutes(C, i, greatest);
        if greatest != i {
          var swapped := Swap(i, greatest);
        }
        i := i + 1;
      }
    }

    // -------------------------------------------------------------------------
    // The number the digits denote
    // -------------------------------------------------------------------------

    /** The number the list stores: its digits read in its own base. */
    ghost function Number(): nat
      reads this, Nodes
      requires Linked()
    {
      Value(Contents, base)
    }

    /** Whether `s` is a non-negative decimal literal: non-empty, no leading minus, only '0'..'9'. */
    static method IsValidDecimal(s: string) returns (r: bool)
      ensures r == IsDecimal(s)
    {
      if |s| == 0 {
        return false;
      }
      if s[0] == '-' {
        return false;
      }
      var i := 0;
      while i < |s|
        invariant 0 <= i <= |s|
        invariant forall j :: 0 <= j < i ==> IsDecimalChar(s[j])
      {
        if s[i] < '0' || s[i] > '9' {
          return false;
        }
        i := i + 1;
      }
      return true;
    }

    /** The digits read in base `b` by Horner's rule, fetching each digit with `Get`. */
    method ToBigInteger(b: int) returns (v: nat)
      requires Valid() && MIN_BASE <= b
      ensures v == Value(Contents, b)
    {
      v := 0;
      var i := 0;
      while i < size
        invariant 0 <= i <= |Contents| && v == Value(Contents[..i], b)
      {
        var d := Get(i);
        assert Contents[..i + 1] == Contents[..i] + [Contents[i]];
        ValueSnoc(Contents[..i], Contents[i], b);
        v := v * b + d.value;
        i := i + 1;
      }
      assert Contents[..i] == Contents;
    }

    /** The stored number in decimal; the empty list reads as "0". */
    method ToDecimalString() returns (s: string)
      requires Valid()
      ensures s == DecimalText(Number())
      ensures IsDecimal(s) && DecimalValue(s) == Number()
    {
      if size == 0 {
        assert Positional(0, 10) == [0];
        s := "0";
        DecimalRoundTrip(0);
        return;
      }
      var value := ToBigInteger(base);
      s := DecimalText(value);
      DecimalRoundTrip(value);
    }

    /** The digits printed one character each, '0'..'9' then 'A'.. from ten; the empty list prints as "". */
    method ToString() returns (s: string)
      requires Linked()
      ensures InBase(Contents, MAX_BASE) && s == Render(Contents)
      ensures |s| == |Contents| && forall i :: 0 <= i < |s| ==> CharValue(s[i]) == Contents[i]
    {
      if size == 0 {
        return "";
      }
      assert InBase(Contents, MAX_BASE);
      assert InBase(Contents[..0], MAX_BASE);
      s := "";
      var cur := head;
      ghost var i := 0;
      while cur != null
        invariant 0 <= i <= |Nodes| && cur == (if i < |Nodes| then Nodes[i] else null)
        invariant InBase(Contents[..i], MAX_BASE) && s == Render(Contents[..i])
        decreases |Nodes| - i
      {
        var d := cur.value;
        if d < 10 {
          s := s + [('0' as int + d) as char];
        } else {
          s := s + [('A' as int + (d - 10)) as char];
        }
        RenderSnoc(Contents, i);
        NextOf(Nodes, i);
        cur := cur.next;
        i := i + 1;
      }
      assert Contents[..i] == Contents;
      forall j | 0 <= j < |s|
        ensures CharValue(s[j]) == Contents[j]
      {
        ReadRender(Contents, j);
      }
    }

    /**
     * Refills the list with the number the decimal literal `decimal`
     * denotes, expanded in the list's own base; zero leaves it empty.
     */
    method FromDecimalString(decimal: string)
      requires Valid() && IsDecimal(decimal)
      modifies this, Nodes
      ensures Valid()
      ensures Contents == Digits(DecimalValue(decimal), base)
      ensures Number() == DecimalValue(decimal) && Canonical(Contents, base)
      ensures fresh(set n | n in Nodes)
    {
      Clear();
      var value := DecimalValue(decimal);
      ValueOfDigits(value, base);
      DigitsCanonical(value, base);
      if value == 0 {
        return;
      }
      var repr := RadixText(value, base);
      ghost var ds := Positional(value, base);
      PositionalInRange(value, base);
      var i := 0;
      while i < |repr|
        invariant 0 <= i <= |repr| == |ds|
        invariant Valid() && Contents == ds[..i]
        invariant tail == null || fresh(tail)
        invariant fresh(set n | n in Nodes)
      {
        AddPrinted(repr[i], ds, i);
        i := i + 1;
      }
      assert ds[..i] == ds;
    }

    /** One step of `FromDecimalString`: reads the printed digit `ch`, the `i`-th of `ds`, and appends it. */
    method AddPrinted(ch: char, ghost ds: seq<nat>, ghost i: nat)
      requires Valid() && InBase(ds, base) && i < |ds| && Contents == ds[..i]
      requires InBase(ds, MAX_BASE) && ch == Render(ds)[i]
      modifies this, tail
      ensures Valid() && Contents == ds[..i + 1]
      ensures tail != null && fresh(tail) && Nodes == old(Nodes) + [tail]
    {
      var d;
      if '0' <= ch <= '9' {
        d := ch as int - '0' as int;
      } else {
        d := 10 + (ch as int - 'A' as int);
      }
      ReadRender(ds, i);
      PrefixGrows(ds, i);
      var _ := Add(d);
    }

    /**
     * The list for the decimal text `value`: surrounding whitespace is
     * trimmed, and text that is not a decimal literal gives an empty list.
     */
    constructor FromString(value: string)
      ensures Valid() && base == DEFAULT_BASE
      ensures Contents == if IsDecimal(Trim(value)) then Digits(DecimalValue(Trim(value)), DEFAULT_BASE) else []
      ensures fresh(set n | n in Nodes)
    {
      base := DEFAULT_BASE;
      head, tail, size := null, null, 0;
      Nodes, Contents := [], [];
      new;
      Load(Trim(value));
    }

    /** What the String constructor does with the trimmed text: the literal's digits, or an empty list. */
    method Load(text: string)
      requires Valid()
      modifies this, Nodes
      ensures Valid()
      ensures Contents == if IsDecimal(text) then Digits(DecimalValue(text), base) else []
      ensures fresh(set n | n in Nodes)
    {
      var valid := IsValidDecimal(text);
      if !valid {
        Clear();
        return;
      }
      FromDecimalString(text);
    }

    /**
     * A new list holding the same number in base ten; the receiver is not
     * changed.  An empty receiver gives an empty list in the default base.
     */
    method ChangeScale() returns (result: NumberListImpl)
      requires Valid()
      ensures fresh(result) && result.Valid()
      ensures fresh(set n | n in result.Nodes)
      ensures result.base == if Contents == [] then DEFAULT_BASE else TARGET_BASE
      ensures result.Contents == if Contents == [] then [] else Positional(Number(), TARGET_BASE)
      ensures result.Number() == Number()
    {
      if size == 0 {
        result := new NumberListImpl();
        return;
      }
      var decimal := ToDecimalString();
      var value := DecimalValue(decimal);
      var converted := RadixText(value, TARGET_BASE);
      result := new NumberListImpl.WithBase(TARGET_BASE);
      ghost var ds := Positional(value, TARGET_BASE);
      PositionalInRange(value, TARGET_BASE);
      var i := 0;
      while i < |converted|
        invariant 0 <= i <= |converted| == |ds|
        invariant fresh(result) && result.Valid() && result.base == TARGET_BASE && result.Contents == ds[..i]
        invariant fresh(set n | n in result.Nodes)
        invariant result.tail == null || fresh(result.tail)
      {
        result.AddDigitPrinted(converted[i], ds, i);
        i := i + 1;
      }
      assert ds[..i] == ds;
      ValueOfPositional(value, TARGET_BASE);
    }

    /**
     * One step of `ChangeScale`: reads the printed digit `ch`, the `i`-th of
     * `ds`, by its character value and appends it unchecked.
     */
    method AddDigitPrinted(ch: char, ghost ds: seq<nat>, ghost i: nat)
      requires Valid() && InBase(ds, base) && i < |ds| && Contents == ds[..i]
      requires InBase(ds, MAX_BASE) && ch == Render(ds)[i]
      modifies this, tail
      ensures Valid() && Contents == ds[..i + 1]
      ensures tail != null && fresh(tail) && Nodes == old(Nodes) + [tail]
    {
      var digit := CharValue(ch);
      ReadRender(ds, i);
      PrefixGrows(ds, i);
      AddDigitRaw(digit);
    }

    /**
     * `ChangeScale` as written: the result is built with the unchecked append
     * as written, so it holds the same digits but none of its nodes has a
     * `prev` link, and from two digits on its backward chain is broken.
     */
    method ChangeScaleAsWritten() returns (result: NumberListImpl)
      requires Valid()
      ensures fresh(result) && result.Linked()
      ensures fresh(set n | n in result.Nodes)
      ensures result.base == if Contents == [] then DEFAULT_BASE else TARGET_BASE
      ensures result.Contents == if Contents == [] then [] else Positional(Number(), TARGET_BASE)
      ensures result.Number() == Number()
      ensures forall j :: 0 <= j < |result.Nodes| ==> result.Nodes[j].prev == null
      ensures result.Valid() <==> |result.Contents| <= 1
    {
      if size == 0 {
        result := new NumberListImpl();
        return;
      }
      var decimal := ToDecimalString();
      var value := DecimalValue(decimal);
      var converted := RadixText(value, TARGET_BASE);
      result := new NumberListImpl.WithBase(TARGET_BASE);
      ghost var ds := Positional(value, TARGET_BASE);
      PositionalInRange(value, TARGET_BASE);
      var i := 0;
      while i < |converted|
        invariant 0 <= i <= |converted| == |ds|
        invariant fresh(result) && result.Linked() && result.base == TARGET_BASE && result.Contents == ds[..i]
        invariant fresh(set n | n in result.Nodes)
        invariant forall j :: 0 <= j < |result.Nodes| ==> result.Nodes[j].prev == null
        invariant result.tail == null || fresh(result.tail)
      {
        result.AddDigitPrintedAsWritten(converted[i], ds, i);
        i := i + 1;
      }
      assert ds[..i] == ds;
      ValueOfPositional(value, TARGET_BASE);
      if |result.Contents| > 1 {
        assert !LinksBack(result.Nodes, 1);
      }
    }

    /**
     * One step of `ChangeScaleAsWritten`: reads the printed digit `ch`, the
     * `i`-th of `ds`, and appends it with the unchecked append as written.
     */
    method AddDigitPrintedAsWritten(ch: char, ghost ds: seq<nat>, ghost i: nat)
      requires Linked() && InBase(ds, base) && i < |ds| && Contents == ds[..i]
      requires InBase(ds, MAX_BASE) && ch == Render(ds)[i]
      requires forall j :: 0 <= j < |Nodes| ==> Nodes[j].prev == null
      modifies this, tail
      ensures Linked() && Contents == ds[..i + 1]
      ensures forall j :: 0 <= j < |Nodes| ==> Nodes[j].prev == null
      ensures tail != null && fresh(tail) && Nodes == old(Nodes) + [tail]
    {
      var digit := CharValue(ch);
      ReadRender(ds, i);
      PrefixGrows(ds, i);
      AddDigitRawAsWritten(digit);
      forall j | 0 <= j < |Nodes|
        ensures Nodes[j].prev == null
      {
        if j < |Nodes| - 1 {
          assert Nodes[j] in old(Nodes);
        }
      }
    }

    /**
     * A new list in the receiver's base holding the bitwise AND of the
     * receiver's number and `arg`'s digits read in the receiver's base (not
     * in `arg`'s own).  A missing or empty operand, or a zero result, gives
     * an empty list.
     */
    method AdditionalOperation(arg: NumberListImpl?) returns (result: NumberListImpl)
      requires Valid() && (arg != null ==> arg.Valid())
      ensures fresh(result) && result.Valid() && result.base == base
      ensures fresh(set n | n in result.Nodes)
      ensures result.Contents == if arg == null || Contents == [] || arg.Contents == [] then []
                                 else Digits(And(Number(), Value(arg.Contents, base)), base)
      ensures arg != null && Contents != [] && arg.Contents != [] ==>
                result.Number() == And(Number(), Value(arg.Contents, base))
    {
      if arg == null || size == 0 || arg.size == 0 {
        result := new NumberListImpl.WithBase(base);
        return;
      }
      var a := ToBigInteger(base);
      var b := arg.ToBigInteger(base);
      var res := And(a, b);
      result := new NumberListImpl.WithBase(base);
      if res == 0 {
        return;
      }
      var text := DecimalText(res);
      DecimalRoundTrip(res);
      result.FromDecimalString(text);
    }
  }
}

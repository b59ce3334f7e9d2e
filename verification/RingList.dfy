/**
 The circular doubly linked list of include/list.h.  A head and its entries form one ring
 of nodes; every operation below rewrites `next` and `prev` fields in the order the C code
 does, and is proved against the sequence of entries the ring stands for.
 */
module RingList {
  import opened Sequences

  /** struct list_head.  Both links are null before initialisation and after ListDel. */
  class Node {
    var next: Node?
    var prev: Node?

    constructor ()
      ensures next == null && prev == null
    {
      next, prev := null, null;
    }
  }

  ghost function Succ(c: seq<Node>, i: nat): Node
    requires i < |c|
  {
    if i + 1 < |c| then c[i + 1] else c[0]
  }

  ghost function Pred(c: seq<Node>, i: nat): Node
    requires i < |c|
  {
    if 0 < i then c[i - 1] else c[|c| - 1]
  }

  /** The nodes of c, in order, are linked into one cycle in both directions. */
  ghost predicate Ring(c: seq<Node>)
    reads c
  {
    && 0 < |c|
    && Distinct(c)
    && (forall i {:trigger c[i].next} :: 0 <= i < |c| ==> c[i].next == Succ(c, i))
    && (forall i {:trigger c[i].prev} :: 0 <= i < |c| ==> c[i].prev == Pred(c, i))
  }

  /** head is the head of the list whose entries are items. */
  ghost predicate IsList(head: Node, items: seq<Node>)
    reads {head}, items
  {
    Ring([head] + items)
  }

  ghost function Nodes(c: seq<Node>): set<Node> {
    set x | x in c
  }

  ghost function Without(items: seq<Node>, k: nat): seq<Node>
    requires k < |items|
  {
    items[..k] + items[k + 1..]
  }

  /** A ring has no distinguished node: read from any of its nodes it is still a ring. */
  lemma AnyNodeHeads(c: seq<Node>, k: nat)
    requires Ring(c) && k < |c|
    ensures Ring(c[k..] + c[..k])
    ensures IsList(c[k], c[k + 1..] + c[..k])
  {
    var d := c[k..] + c[..k];
    forall i | 0 <= i < |d|
      ensures d[i].next == Succ(d, i) && d[i].prev == Pred(d, i)
    {
      if i < |c| - k {
        assert d[i] == c[i + k];
      } else {
        assert d[i] == c[i + k - |c|];
      }
    }
    assert [c[k]] + (c[k + 1..] + c[..k]) == d;
  }

  /** The entries of a list are determined by its head and the links: two readings agree. */
  lemma {:induction false} PrefixesAgree(c: seq<Node>, d: seq<Node>, n: nat)
    requires Ring(c) && Ring(d) && c[0] == d[0]
    requires n <= |c| && n <= |d|
    ensures c[..n] == d[..n]
  {
    if n != 0 {
      PrefixesAgree(c, d, n - 1);
      if n != 1 {
        assert c[n - 2] == c[..n - 1][n - 2] == d[..n - 1][n - 2] == d[n - 2];
        assert c[n - 2].next == Succ(c, n - 2) && d[n - 2].next == Succ(d, n - 2);
      }
      assert c[..n] == c[..n - 1] + [c[n - 1]];
      assert d[..n] == d[..n - 1] + [d[n - 1]];
    }
  }

  lemma NoShorterReading(c: seq<Node>, d: seq<Node>)
    requires Ring(c) && Ring(d) && c[0] == d[0]
    requires |c| <= |d|
    ensures c == d
  {
    PrefixesAgree(c, d, |c|);
    var last := |c| - 1;
    assert c[last] == c[..|c|][last] == d[..|c|][last] == d[last];
    assert c[last].next == Succ(c, last);
    assert d[last].next == Succ(d, last);
    assert c == c[..|c|] && d == d[..|d|];
  }

  lemma EntriesAreDetermined(head: Node, items: seq<Node>, others: seq<Node>)
    requires IsList(head, items) && IsList(head, others)
    ensures items == others
  {
    var c, d := [head] + items, [head] + others;
    if |c| <= |d| {
      NoShorterReading(c, d);
    } else {
      NoShorterReading(d, c);
    }
    assert items == c[1..] && others == d[1..];
  }

  // ---- Tests ----

  predicate Empty(head: Node)
    reads head
  {
    head.next == head
  }

  predicate EmptyCareful(head: Node)
    reads head
  {
    var next := head.next;
    next == head && next == head.prev
  }

  predicate Singular(head: Node)
    reads head
  {
    !Empty(head) && head.next == head.prev
  }

  predicate IsLast(entry: Node, head: Node)
    reads entry
  {
    entry.next == head
  }

  lemma TestsReadTheSequence(head: Node, items: seq<Node>)
    requires IsList(head, items)
    ensures Empty(head) <==> items == []
    ensures EmptyCareful(head) <==> items == []
    ensures Singular(head) <==> |items| == 1
    ensures forall k :: 0 <= k < |items| ==> (IsLast(items[k], head) <==> k == |items| - 1)
    ensures items != [] ==> head.next == items[0] && head.prev == items[|items| - 1]
  {
    var c := [head] + items;
    assert c[0] == head;
    assert c[0].next == Succ(c, 0);
    assert c[0].prev == Pred(c, 0);
    forall k | 0 <= k < |items|
      ensures IsLast(items[k], head) <==> k == |items| - 1
    {
      assert c[k + 1] == items[k];
      assert c[k + 1].next == Succ(c, k + 1);
    }
  }

  // ---- Internal operations, on rings ----

  method Init(list: Node)
    modifies list
    ensures IsList(list, [])
  {
    list.next := list;
    list.prev := list;
  }

  /** __list_add: the entry goes between position k of the ring and the position after it. */
  method InsertBetween(entry: Node, prev: Node, next: Node, ghost c: seq<Node>, ghost k: nat)
    requires Ring(c) && entry !in c
    requires k < |c| && prev == c[k] && next == Succ(c, k)
    modifies entry, prev, next
    ensures Ring(c[..k + 1] + [entry] + c[k + 1..])
  {
    next.prev := entry;
    entry.next := next;
    entry.prev := prev;
    prev.next := entry;
    ghost var d := c[..k + 1] + [entry] + c[k + 1..];
    forall i | 0 <= i < |d|
      ensures d[i].next == Succ(d, i) && d[i].prev == Pred(d, i)
    {
      if i <= k {
        assert d[i] == c[i];
      } else if i > k + 1 {
        assert d[i] == c[i - 1];
      }
    }
  }

  /** __list_del: the entry at position k is bypassed. */
  method Bypass(prev: Node, next: Node, ghost c: seq<Node>, ghost k: nat)
    requires Ring(c) && 0 < k < |c|
    requires prev == Pred(c, k) && next == Succ(c, k)
    modifies prev, next
    ensures Ring(c[..k] + c[k + 1..])
    ensures c[k].next == old(c[k].next) && c[k].prev == old(c[k].prev)
  {
    next.prev := prev;
    prev.next := next;
    ghost var d := c[..k] + c[k + 1..];
    forall i | 0 <= i < |d|
      ensures d[i].next == Succ(d, i) && d[i].prev == Pred(d, i)
    {
      if i < k {
        assert d[i] == c[i];
      } else {
        assert d[i] == c[i + 1];
      }
    }
  }

  /** What splicing leaves: the ring c broken after position k, and the chain a set into the gap. */
  ghost predicate Chained(a: seq<Node>, before: Node, after: Node)
    reads a
  {
    && (forall i {:trigger a[i].next} :: 0 <= i < |a| ==> a[i].next == if i + 1 < |a| then a[i + 1] else after)
    && (forall i {:trigger a[i].prev} :: 0 <= i < |a| ==> a[i].prev == if 0 < i then a[i - 1] else before)
  }

  ghost predicate Broken(c: seq<Node>, k: nat, first: Node, last: Node)
    requires k < |c|
    reads c
  {
    && (forall i {:trigger c[i].next} :: 0 <= i < |c| ==> c[i].next == if i == k then first else Succ(c, i))
    && (forall i {:trigger c[i].prev} :: 0 <= i < |c| ==> c[i].prev == if c[i] == Succ(c, k) then last else Pred(c, i))
  }

  lemma DistinctSplice(a: seq<Node>, c: seq<Node>, k: nat)
    requires Distinct(a) && Distinct(c) && k < |c|
    requires forall x :: x in a ==> x !in c
    ensures Distinct(c[..k + 1] + a + c[k + 1..])
  {
    var d := c[..k + 1] + a + c[k + 1..];
    assert forall x :: 0 <= x < |a| ==> a[x] in a && a[x] !in c;
    forall i, j | 0 <= i < j < |d|
      ensures d[i] != d[j]
    {
      var m, n := k + 1, k + |a|;
      assert d[i] == if i < m then c[i] else if i <= n then a[i - m] else c[i - |a|];
      assert d[j] == if j < m then c[j] else if j <= n then a[j - m] else c[j - |a|];
    }
  }

  lemma ChainInGap(a: seq<Node>, c: seq<Node>, k: nat)
    requires a != [] && k < |c| && Distinct(a) && Distinct(c)
    requires forall x :: x in a ==> x !in c
    requires Chained(a, c[k], Succ(c, k)) && Broken(c, k, a[0], a[|a| - 1])
    ensures Ring(c[..k + 1] + a + c[k + 1..])
  {
    var d := c[..k + 1] + a + c[k + 1..];
    forall i | 0 <= i < |d|
      ensures d[i].next == Succ(d, i) && d[i].prev == Pred(d, i)
    {
      if i <= k {
        assert d[i] == c[i];
      } else if i <= k + |a| {
        assert d[i] == a[i - k - 1];
      } else {
        assert d[i] == c[i - |a|];
      }
    }
    DistinctSplice(a, c, k);
  }

  lemma ListEntries(head: Node, items: seq<Node>)
    requires IsList(head, items)
    ensures Distinct(items) && head !in items
    ensures Chained(items, head, head)
    ensures items != [] ==> head.next == items[0] && head.prev == items[|items| - 1]
    ensures items == [] ==> head.next == head && head.prev == head
  {
    var l := [head] + items;
    assert l[0] == head && l[0].next == Succ(l, 0) && l[0].prev == Pred(l, 0);
    forall i | 0 <= i < |items|
      ensures items[i] != head
      ensures items[i].next == if i + 1 < |items| then items[i + 1] else head
      ensures items[i].prev == if 0 < i then items[i - 1] else head
    {
      assert items[i] == l[i + 1];
      assert l[i + 1].next == Succ(l, i + 1) && l[i + 1].prev == Pred(l, i + 1);
    }
    forall i, j | 0 <= i < j < |items|
      ensures items[i] != items[j]
    {
      assert items[i] == l[i + 1] && items[j] == l[j + 1];
    }
  }

  lemma RingLinks(c: seq<Node>)
    requires Ring(c)
    ensures 0 < |c| && Distinct(c)
    ensures forall i {:trigger c[i].next} :: 0 <= i < |c| ==> c[i].next == Succ(c, i)
    ensures forall i {:trigger c[i].prev} :: 0 <= i < |c| ==> c[i].prev == Pred(c, i)
    ensures forall i :: 0 <= i < |c| ==> (c[i] == c[0] <==> i == 0)
  {
  }

  /** __list_splice: the entries a of list go between position k of the ring c and the next. */
  method SpliceBetween(list: Node, prev: Node, next: Node, ghost a: seq<Node>, ghost c: seq<Node>, ghost k: nat)
    requires IsList(list, a) && a != []
    requires Ring(c) && k < |c| && prev == c[k] && next == Succ(c, k)
    requires forall x :: x in a ==> x !in c
    requires list !in c
    modifies prev, next, list.next, list.prev
    ensures Ring(c[..k + 1] + a + c[k + 1..])
    ensures list.next == old(list.next) && list.prev == old(list.prev)
  {
    hide Ring, Distinct;
    ListEntries(list, a);
    RingLinks(c);
    assert forall i :: 0 <= i < |a| ==> a[i] in a && a[i] !in c;
    assert next in c;
    var first := list.next;
    var last := list.prev;
    first.prev := prev;
    prev.next := first;
    last.next := next;
    next.prev := last;
    forall i | 0 <= i < |a|
      ensures a[i].next == if i + 1 < |a| then a[i + 1] else next
      ensures a[i].prev == if 0 < i then a[i - 1] else prev
    {
    }
    forall i | 0 <= i < |c|
      ensures c[i].next == if i == k then first else Succ(c, i)
      ensures c[i].prev == if c[i] == Succ(c, k) then last else Pred(c, i)
    {
      assert c[i] in c;
    }
    ChainInGap(a, c, k);
  }

  // ---- The list operations ----

  ghost predicate Apart(head: Node, items: seq<Node>, other: Node, others: seq<Node>) {
    && head != other && head !in others && other !in items
    && (forall x :: x in items ==> x !in others)
  }

  method ListAdd(entry: Node, head: Node, ghost items: seq<Node>)
    requires IsList(head, items) && entry != head && entry !in items
    modifies {entry, head} + Nodes(items)
    ensures IsList(head, [entry] + items)
  {
    ghost var c := [head] + items;
    ListEntries(head, items);
    assert c[0] == head && Succ(c, 0) in c;
    InsertBetween(entry, head, head.next, c, 0);
    assert c[..1] + [entry] + c[1..] == [head] + ([entry] + items);
  }

  method ListAddTail(entry: Node, head: Node, ghost items: seq<Node>)
    requires IsList(head, items) && entry != head && entry !in items
    modifies {entry, head} + Nodes(items)
    ensures IsList(head, items + [entry])
  {
    ghost var c := [head] + items;
    ListEntries(head, items);
    assert Succ(c, |items|) == head && c[|items|] == head.prev;
    assert c[|items|] in c;
    InsertBetween(entry, head.prev, head, c, |items|);
    assert c[..|c|] + [entry] + c[|c|..] == [head] + (items + [entry]);
  }

  method DelEntry(entry: Node, ghost head: Node, ghost items: seq<Node>, ghost k: nat)
    requires IsList(head, items) && k < |items| && items[k] == entry
    modifies {head} + Nodes(items)
    ensures IsList(head, Without(items, k))
    ensures entry.next == old(entry.next) && entry.prev == old(entry.prev)
  {
    ghost var c := [head] + items;
    assert c[k + 1] == entry;
    assert entry.next == Succ(c, k + 1) && entry.prev == Pred(c, k + 1);
    assert Succ(c, k + 1) in c && Pred(c, k + 1) in c;
    Bypass(entry.prev, entry.next, c, k + 1);
    assert c[..k + 1] + c[k + 2..] == [head] + Without(items, k);
  }

  method ListDel(entry: Node, ghost head: Node, ghost items: seq<Node>, ghost k: nat)
    requires IsList(head, items) && k < |items| && items[k] == entry
    modifies {head} + Nodes(items)
    ensures IsList(head, Without(items, k))
    ensures entry.next == null && entry.prev == null
  {
    ListEntries(head, items);
    WithoutLeaves(head, items, k);
    DelEntry(entry, head, items, k);
    entry.next := null;
    entry.prev := null;
  }

  method ListDelInit(entry: Node, ghost head: Node, ghost items: seq<Node>, ghost k: nat)
    requires IsList(head, items) && k < |items| && items[k] == entry
    modifies {head} + Nodes(items)
    ensures IsList(head, Without(items, k)) && IsList(entry, [])
  {
    ListEntries(head, items);
    WithoutLeaves(head, items, k);
    DelEntry(entry, head, items, k);
    Init(entry);
  }

  method ListMove(entry: Node, head: Node, ghost from: Node, ghost items: seq<Node>, ghost k: nat, ghost dest: seq<Node>)
    requires IsList(from, items) && k < |items| && items[k] == entry
    requires IsList(head, dest) && (head == from || Apart(head, dest, from, items))
    modifies {from, head} + Nodes(items) + Nodes(dest)
    ensures head == from ==> IsList(head, [entry] + Without(items, k))
    ensures head != from ==> IsList(from, Without(items, k)) && IsList(head, [entry] + dest)
  {
    hide Ring;
    ListEntries(from, items);
    ListEntries(head, dest);
    WithoutLeaves(from, items, k);
    assert items[k] in items;
    DelEntry(entry, from, items, k);
    ListAdd(entry, head, if head == from then Without(items, k) else dest);
  }

  method ListMoveTail(entry: Node, head: Node, ghost from: Node, ghost items: seq<Node>, ghost k: nat, ghost dest: seq<Node>)
    requires IsList(from, items) && k < |items| && items[k] == entry
    requires IsList(head, dest) && (head == from || Apart(head, dest, from, items))
    modifies {from, head} + Nodes(items) + Nodes(dest)
    ensures head == from ==> IsList(head, Without(items, k) + [entry])
    ensures head != from ==> IsList(from, Without(items, k)) && IsList(head, dest + [entry])
  {
    hide Ring;
    ListEntries(from, items);
    ListEntries(head, dest);
    WithoutLeaves(from, items, k);
    assert items[k] in items;
    DelEntry(entry, from, items, k);
    ListAddTail(entry, head, if head == from then Without(items, k) else dest);
  }

  method ListRotateLeft(head: Node, ghost items: seq<Node>)
    requires IsList(head, items)
    modifies {head} + Nodes(items)
    ensures IsList(head, if items == [] then [] else items[1..] + [items[0]])
  {
    TestsReadTheSequence(head, items);
    if !Empty(head) {
      var first := head.next;
      ListMoveTail(first, head, head, items, 0, items);
      assert Without(items, 0) == items[1..];
    }
  }

  /** Stated on rings, so that it also covers replacing the head of a list. */
  method ListReplace(old_: Node, nnew: Node, ghost c: seq<Node>, ghost k: nat)
    requires Ring(c) && k < |c| && c[k] == old_ && nnew !in c
    modifies {nnew} + Nodes(c)
    ensures Ring(c[k := nnew])
    ensures |c| > 1 ==> old_.next == old(old_.next) && old_.prev == old(old_.prev)
    ensures |c| == 1 ==> old_.next == old_ && old_.prev == nnew
  {
    assert old_.next == Succ(c, k) && old_.prev == Pred(c, k);
    assert Succ(c, k) in c && Pred(c, k) in c;
    nnew.next := old_.next;
    nnew.next.prev := nnew;
    nnew.prev := old_.prev;
    nnew.prev.next := nnew;
    ghost var d := c[k := nnew];
    forall i | 0 <= i < |d|
      ensures d[i].next == Succ(d, i) && d[i].prev == Pred(d, i)
    {
      if i != k {
        assert d[i] == c[i] && c[i] in c;
      }
    }
  }

  method ListReplaceInit(old_: Node, nnew: Node, ghost c: seq<Node>, ghost k: nat)
    requires Ring(c) && k < |c| && c[k] == old_ && nnew !in c
    modifies {nnew} + Nodes(c)
    ensures Ring(c[k := nnew]) && IsList(old_, [])
  {
    ListReplace(old_, nnew, c, k);
    assert old_ !in c[k := nnew] by {
      assert forall i :: 0 <= i < |c| && i != k ==> c[i] != c[k];
    }
    Init(old_);
  }

  /** Entries up to and including the one at position k of head go to list. */
  method CutBetween(list: Node, head: Node, entry: Node, ghost items: seq<Node>, ghost k: nat)
    requires IsList(head, items) && k < |items| && items[k] == entry
    requires list != head && list !in items
    modifies {list, head} + Nodes(items)
    ensures IsList(list, items[..k + 1]) && IsList(head, items[k + 1..])
  {
    ListEntries(head, items);
    assert items[0] in items && (k + 1 < |items| ==> items[k + 1] in items);
    var newFirst := entry.next;
    list.next := head.next;
    list.next.prev := list;
    list.prev := entry;
    entry.next := list;
    head.next := newFirst;
    newFirst.prev := head;
    forall i | 0 <= i < |items|
      ensures items[i].next == if i == k then list else if i + 1 < |items| then items[i + 1] else head
      ensures items[i].prev == if i == 0 then list else if i == k + 1 then head else items[i - 1]
    {
      assert items[i] in items;
    }
    CutHalves(list, head, items, k);
  }

  lemma CutHalves(list: Node, head: Node, items: seq<Node>, k: nat)
    requires k < |items| && Distinct(items) && list != head && list !in items && head !in items
    requires list.next == items[0] && list.prev == items[k]
    requires head.next == if k + 1 < |items| then items[k + 1] else head
    requires head.prev == if k + 1 < |items| then items[|items| - 1] else head
    requires forall i {:trigger items[i].next} :: 0 <= i < |items| ==>
      items[i].next == if i == k then list else if i + 1 < |items| then items[i + 1] else head
    requires forall i {:trigger items[i].prev} :: 0 <= i < |items| ==>
      items[i].prev == if i == 0 then list else if i == k + 1 then head else items[i - 1]
    ensures IsList(list, items[..k + 1]) && IsList(head, items[k + 1..])
  {
    hide Ring, Distinct;
    FirstHalf(list, head, items, k);
    SecondHalf(list, head, items, k);
  }

  lemma OneMore(x: Node, c: seq<Node>)
    requires Distinct(c) && x !in c
    ensures Distinct([x] + c)
  {
    var d := [x] + c;
    forall i, j | 0 <= i < j < |d|
      ensures d[i] != d[j]
    {
      assert d[j] == c[j - 1] && d[j] in c;
      assert i > 0 ==> d[i] == c[i - 1];
    }
  }

  lemma PartDistinct(c: seq<Node>, a: nat, b: nat)
    requires Distinct(c) && a <= b <= |c|
    ensures Distinct(c[a..b]) && forall x :: x in c[a..b] ==> x in c
  {
    var d := c[a..b];
    assert forall i :: 0 <= i < |d| ==> d[i] == c[a + i];
  }

  lemma FirstHalf(list: Node, head: Node, items: seq<Node>, k: nat)
    requires k < |items| && Distinct(items) && list != head && list !in items && head !in items
    requires list.next == items[0] && list.prev == items[k]
    requires head.next == if k + 1 < |items| then items[k + 1] else head
    requires head.prev == if k + 1 < |items| then items[|items| - 1] else head
    requires forall i {:trigger items[i].next} :: 0 <= i < |items| ==>
      items[i].next == if i == k then list else if i + 1 < |items| then items[i + 1] else head
    requires forall i {:trigger items[i].prev} :: 0 <= i < |items| ==>
      items[i].prev == if i == 0 then list else if i == k + 1 then head else items[i - 1]
    ensures IsList(list, items[..k + 1])
  {
    hide Distinct;
    var l := [list] + items[..k + 1];
    assert items[..k + 1] == items[0..k + 1];
    PartDistinct(items, 0, k + 1);
    OneMore(list, items[..k + 1]);
    forall i | 0 <= i < |l|
      ensures l[i].next == Succ(l, i) && l[i].prev == Pred(l, i)
    {
      if 0 < i {
        assert l[i] == items[i - 1];
      }
    }
  }

  lemma SecondHalf(list: Node, head: Node, items: seq<Node>, k: nat)
    requires k < |items| && Distinct(items) && list != head && list !in items && head !in items
    requires list.next == items[0] && list.prev == items[k]
    requires head.next == if k + 1 < |items| then items[k + 1] else head
    requires head.prev == if k + 1 < |items| then items[|items| - 1] else head
    requires forall i {:trigger items[i].next} :: 0 <= i < |items| ==>
      items[i].next == if i == k then list else if i + 1 < |items| then items[i + 1] else head
    requires forall i {:trigger items[i].prev} :: 0 <= i < |items| ==>
      items[i].prev == if i == 0 then list else if i == k + 1 then head else items[i - 1]
    ensures IsList(head, items[k + 1..])
  {
    hide Distinct;
    var h := [head] + items[k + 1..];
    assert items[k + 1..] == items[k + 1..|items|];
    PartDistinct(items, k + 1, |items|);
    OneMore(head, items[k + 1..]);
    forall i | 0 <= i < |h|
      ensures h[i].next == Succ(h, i) && h[i].prev == Pred(h, i)
    {
      if 0 < i {
        assert h[i] == items[k + i];
      }
    }
  }

  /**
   list_cut_position.  With one entry any `entry` is accepted; with more, it must be the
   head or on the list.  An empty head leaves `list` as it was, even when entry is the head.
   */
  method ListCutPosition(list: Node, head: Node, entry: Node, ghost items: seq<Node>)
    requires IsList(head, items) && list != head && list !in items
    requires |items| > 1 ==> entry == head || entry in items
    modifies {list, head} + Nodes(items)
    ensures items == [] || (entry != head && entry !in items) ==>
      unchanged(list, head) && forall x :: x in items ==> unchanged(x)
    ensures items != [] && entry == head ==> IsList(list, []) && IsList(head, items)
    ensures forall k :: 0 <= k < |items| && items[k] == entry ==>
      IsList(list, items[..k + 1]) && IsList(head, items[k + 1..])
  {
    TestsReadTheSequence(head, items);
    ListEntries(head, items);
    if Empty(head) {
      return;
    }
    if Singular(head) && head.next != entry && head != entry {
      return;
    }
    if entry == head {
      Init(list);
    } else {
      ghost var k :| 0 <= k < |items| && items[k] == entry;
      CutBetween(list, head, entry, items, k);
    }
  }

  lemma WithoutLeaves(head: Node, items: seq<Node>, k: nat)
    requires k < |items| && Distinct(items) && head !in items
    ensures items[k] != head && items[k] !in Without(items, k)
    ensures Nodes(Without(items, k)) <= Nodes(items)
  {
    assert items[k] in items;
  }

  // ---- Splicing: list_splice and list_splice_tail leave `list` pointing into head ----

  method SpliceFront(list: Node, head: Node, ghost a: seq<Node>, ghost b: seq<Node>)
    requires IsList(list, a) && IsList(head, b) && Apart(list, a, head, b) && a != []
    modifies {list, head} + Nodes(a) + Nodes(b)
    ensures IsList(head, a + b) && list !in a + b
    ensures list.next == old(list.next) && list.prev == old(list.prev)
  {
    ghost var c := [head] + b;
    ListEntries(head, b);
    ListEntries(list, a);
    assert Succ(c, 0) in c && a[0] in a && a[|a| - 1] in a;
    SpliceBetween(list, head, head.next, a, c, 0);
    assert c[..1] + a + c[1..] == [head] + (a + b);
  }

  method SpliceBack(list: Node, head: Node, ghost a: seq<Node>, ghost b: seq<Node>)
    requires IsList(list, a) && IsList(head, b) && Apart(list, a, head, b) && a != []
    modifies {list, head} + Nodes(a) + Nodes(b)
    ensures IsList(head, b + a) && list !in b + a
    ensures list.next == old(list.next) && list.prev == old(list.prev)
  {
    ghost var c := [head] + b;
    ListEntries(head, b);
    ListEntries(list, a);
    assert Succ(c, |b|) == head && c[|b|] == head.prev && c[|b|] in c;
    assert a[0] in a && a[|a| - 1] in a;
    SpliceBetween(list, head.prev, head, a, c, |b|);
    assert c[..|c|] + a + c[|c|..] == [head] + (b + a);
  }

  method ListSplice(list: Node, head: Node, ghost a: seq<Node>, ghost b: seq<Node>)
    requires IsList(list, a) && IsList(head, b) && Apart(list, a, head, b)
    modifies {list, head} + Nodes(a) + Nodes(b)
    ensures IsList(head, a + b)
    ensures list.next == old(list.next) && list.prev == old(list.prev)
  {
    TestsReadTheSequence(list, a);
    assert a == [] ==> a + b == b;
    if !Empty(list) {
      SpliceFront(list, head, a, b);
    }
  }

  method ListSpliceTail(list: Node, head: Node, ghost a: seq<Node>, ghost b: seq<Node>)
    requires IsList(list, a) && IsList(head, b) && Apart(list, a, head, b)
    modifies {list, head} + Nodes(a) + Nodes(b)
    ensures IsList(head, b + a)
    ensures list.next == old(list.next) && list.prev == old(list.prev)
  {
    TestsReadTheSequence(list, a);
    assert a == [] ==> b + a == b;
    if !Empty(list) {
      SpliceBack(list, head, a, b);
    }
  }

  method ListSpliceInit(list: Node, head: Node, ghost a: seq<Node>, ghost b: seq<Node>)
    requires IsList(list, a) && IsList(head, b) && Apart(list, a, head, b)
    modifies {list, head} + Nodes(a) + Nodes(b)
    ensures IsList(head, a + b)
    ensures IsList(list, [])
  {
    TestsReadTheSequence(list, a);
    assert a == [] ==> a + b == b;
    if !Empty(list) {
      SpliceFront(list, head, a, b);
      Init(list);
    }
  }

  method ListSpliceTailInit(list: Node, head: Node, ghost a: seq<Node>, ghost b: seq<Node>)
    requires IsList(list, a) && IsList(head, b) && Apart(list, a, head, b)
    modifies {list, head} + Nodes(a) + Nodes(b)
    ensures IsList(head, b + a)
    ensures IsList(list, [])
  {
    TestsReadTheSequence(list, a);
    assert a == [] ==> b + a == b;
    if !Empty(list) {
      SpliceBack(list, head, a, b);
      Init(list);
    }
  }

  lemma HalvesApart(list: Node, head: Node, items: seq<Node>, k: nat)
    requires Distinct(items) && head !in items && list !in items && list != head && k <= |items|
    ensures Apart(list, items[..k], head, items[k..])
  {
  }

  /**
   Cutting at any entry, or at the head, and splicing back restores the list: exactly
   when the cut happened at all, or the list cut into was empty.
   */
  method CutThenSplice(list: Node, head: Node, entry: Node, ghost items: seq<Node>, ghost stale: seq<Node>)
    requires IsList(head, items) && IsList(list, stale) && Apart(list, stale, head, items)
    requires entry == head || entry in items
    modifies {list, head} + Nodes(items) + Nodes(stale)
    ensures IsList(head, if items == [] then stale else items) && IsList(list, [])
  {
    hide Ring, Distinct;
    ListEntries(head, items);
    ListCutPosition(list, head, entry, items);
    ghost var k := if entry in items then PlaceOf(entry, items) + 1 else 0;
    ghost var a, b := if items == [] then stale else items[..k], items[k..];
    HalvesApart(list, head, items, k);
    assert a + b == if items == [] then stale else items;
    ListSpliceInit(list, head, a, b);
  }

  ghost function PlaceOf(entry: Node, items: seq<Node>): (k: nat)
    requires entry in items
    ensures k < |items| && items[k] == entry
  {
    var k :| 0 <= k < |items| && items[k] == entry;
    k
  }

  lemma PrefixApart(head: Node, items: seq<Node>, j: nat)
    requires Distinct(items) && head !in items && j < |items|
    ensures forall x :: x in items[..j] ==> x != head && x !in items[j..]
    ensures items[j] !in items[j + 1..] && Without(items[j..], 0) == items[j + 1..]
    ensures items[..j + 1] == items[..j] + [items[j]]
  {
    var rest := items[j..];
    assert rest[..0] + rest[1..] == items[j + 1..];
    assert forall m :: 0 <= m < |rest| ==> rest[m] == items[j + m];
    forall i, m | 0 <= i < j && 0 <= m < |rest|
      ensures items[..j][i] != rest[m]
    {
      assert items[..j][i] == items[i] && rest[m] == items[j + m];
    }
    var after := items[j + 1..];
    assert forall m :: 0 <= m < |after| ==> after[m] == items[j + 1 + m];
  }

  /**
   list_for_each_safe with list_del in the body: the cursor n is read before pos is
   unlinked, so every entry is visited, once and in order, and the list ends empty.
   */
  method DeleteEach(head: Node, ghost items: seq<Node>) returns (visited: seq<Node>)
    requires IsList(head, items)
    modifies {head} + Nodes(items)
    ensures IsList(head, []) && visited == items
    ensures forall x :: x in items ==> x.next == null && x.prev == null
  {
    hide Ring, Distinct, Without;
    visited := [];
    ListEntries(head, items);
    var pos := head.next;
    var n := pos.next;
    ghost var j := 0;
    while pos != head
      invariant 0 <= j <= |items| && visited == items[..j]
      invariant IsList(head, items[j..])
      invariant pos == if j < |items| then items[j] else head
      invariant n == pos.next
      invariant forall x :: x in items[..j] ==> x.next == null && x.prev == null
      decreases |items| - j
    {
      ghost var rest := items[j..];
      ListEntries(head, rest);
      PrefixApart(head, items, j);
      assert rest[0] == pos && n == if j + 1 < |items| then items[j + 1] else head;
      visited := visited + [pos];
      ListDel(pos, head, rest, 0);
      ListEntries(head, items[j + 1..]);
      pos := n;
      n := pos.next;
      j := j + 1;
    }
  }
}

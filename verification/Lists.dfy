/**
  The circular doubly linked lists of list.h. A list is a ring of nodes, one of
  which is the head; the ring is described by the sequence of its nodes.
 */
module Lists {

  class ListHead {
    var next: ListHead
    var prev: ListHead

    // INIT_LIST_HEAD
    constructor ()
      ensures Ring([this])
    {
      next := this;
      prev := this;
    }
  }

  // b comes right after a
  predicate Joined(a: ListHead, b: ListHead)
    reads a, b
  {
    a.next == b && b.prev == a
  }

  ghost predicate Distinct(s: seq<ListHead>) {
    forall i, j | 0 <= i < j < |s| :: s[i] != s[j]
  }

  // Each node of s is followed by the next one
  ghost predicate Chain(s: seq<ListHead>)
    reads s
  {
    forall i | 0 <= i < |s| - 1 :: Joined(s[i], s[i + 1])
  }

  ghost predicate Ring(s: seq<ListHead>)
    reads s
  {
    s != [] && Distinct(s) && Chain(s) && Joined(s[|s| - 1], s[0])
  }

  ghost predicate Apart(s: seq<ListHead>, t: seq<ListHead>) {
    forall n | n in s :: n !in t
  }

  // Closed up by the head, a chain is a ring
  ghost predicate Closed(head: ListHead, s: seq<ListHead>)
    reads head, s
  {
    if s == [] then Joined(head, head) else Joined(head, s[0]) && Joined(s[|s| - 1], head)
  }

  lemma RingOfParts(head: ListHead, s: seq<ListHead>)
    ensures Ring([head] + s) <==> head !in s && Distinct(s) && Chain(s) && Closed(head, s)
  {
    var all := [head] + s;
    assert forall i | 0 <= i < |s| :: all[i + 1] == s[i];
    if Ring(all) {
      forall i | 0 <= i < |s|
        ensures s[i] != head
      {
        assert all[0] != all[i + 1];
      }
      forall i | 0 <= i < |s| - 1
        ensures Joined(s[i], s[i + 1])
      {
        assert Joined(all[i + 1], all[i + 2]);
      }
      if s != [] {
        assert Joined(all[0], all[1]);
      }
    }
  }

  // A chain of two parts
  lemma ChainOfParts(a: seq<ListHead>, b: seq<ListHead>)
    ensures Chain(a + b) <==> Chain(a) && Chain(b) && (a != [] && b != [] ==> Joined(a[|a| - 1], b[0]))
  {
    var all := a + b;
    assert forall i | 0 <= i < |a| :: all[i] == a[i];
    assert forall i | 0 <= i < |b| :: all[|a| + i] == b[i];
    if Chain(all) {
      forall i | 0 <= i < |b| - 1
        ensures Joined(b[i], b[i + 1])
      {
        assert Joined(all[|a| + i], all[|a| + i + 1]);
      }
      if a != [] && b != [] {
        assert Joined(all[|a| - 1], all[|a|]);
      }
    }
  }

  lemma DistinctParts(a: seq<ListHead>, b: seq<ListHead>)
    ensures Distinct(a + b) <==> Distinct(a) && Distinct(b) && Apart(a, b)
  {
    var all := a + b;
    assert forall i | 0 <= i < |a| :: all[i] == a[i];
    assert forall i | 0 <= i < |b| :: all[|a| + i] == b[i];
    if Distinct(all) {
      forall i, j | 0 <= i < j < |b|
        ensures b[i] != b[j]
      {
        assert all[|a| + i] != all[|a| + j];
      }
      forall n | n in a
        ensures n !in b
      {
        var i :| 0 <= i < |a| && a[i] == n;
        forall j | 0 <= j < |b|
          ensures b[j] != n
        {
          assert all[i] != all[|a| + j];
        }
      }
    }
    if Distinct(a) && Distinct(b) && Apart(a, b) {
      forall i, j | 0 <= i < j < |all|
        ensures all[i] != all[j]
      {
        if i < |a| <= j {
          assert all[i] in a && all[j] == b[j - |a|];
        } else if |a| <= i {
          assert all[i] == b[i - |a|] && all[j] == b[j - |a|];
        }
      }
    }
  }

  lemma ApartParts(list: ListHead, a: seq<ListHead>, head: ListHead, b: seq<ListHead>)
    ensures Apart([list] + a, [head] + b) <==> Apart(a, b) && head !in a && list !in b && list != head
  {
    if Apart([list] + a, [head] + b) {
      assert list in [list] + a && head in [head] + b;
      forall n | n in a
        ensures n !in b && n != head
      {
        assert n in [list] + a && n !in [head] + b;
      }
    }
  }

  // The links of a ring follow from its nodes
  lemma LinksOf(s: seq<ListHead>, k: nat)
    requires Ring(s) && k < |s|
    ensures s[k].next == if k + 1 < |s| then s[k + 1] else s[0]
    ensures s[k].prev == if k > 0 then s[k - 1] else s[|s| - 1]
  {
    if k + 1 < |s| {
      assert Joined(s[k], s[k + 1]);
    }
    if k > 0 {
      assert Joined(s[k - 1], s[k]);
    }
  }

  lemma Stays(s: seq<ListHead>, m: ListHead)
    requires Ring(s) && m in s
    ensures m.next in s && m.prev in s
  {
    var k :| 0 <= k < |s| && s[k] == m;
    LinksOf(s, k);
  }

  lemma OneFewer(s: seq<ListHead>, k: nat)
    requires Ring(s) && k < |s|
    ensures s[k] !in s[..k] + s[k + 1..] && forall m | m in s[..k] + s[k + 1..] :: m in s
  {
  }

  // ---------- adding, deleting and replacing ----------

  // list_add_tail: node goes between the last entry and the head
  method ListAddTail(node: ListHead, head: ListHead, ghost s: seq<ListHead>)
    requires Ring([head] + s) && node !in [head] + s
    modifies node, head, head.prev
    ensures Ring([head] + s + [node])
  {
    ghost var all := [head] + s;
    var prev := head.prev;
    assert prev == all[|all| - 1];
    head.prev := node;
    node.next := head;
    node.prev := prev;
    prev.next := node;
    assert all + [node] == [head] + s + [node];
  }

  // __list_del_entry: the neighbours of the node point to each other
  method ListDelEntry(node: ListHead, ghost s: seq<ListHead>, ghost k: nat)
    requires Ring(s) && 0 < k < |s| && node == s[k]
    modifies node.next, node.prev
    ensures Ring(s[..k] + s[k + 1..])
  {
    ghost var rest := s[..k] + s[k + 1..];
    var prev, next := node.prev, node.next;
    assert Joined(s[k - 1], s[k]);
    assert k < |s| - 1 ==> Joined(s[k], s[k + 1]);
    next.prev := prev;
    prev.next := next;
  }

  // list_replace
  method ListReplace(node: ListHead, spare: ListHead, ghost s: seq<ListHead>, ghost k: nat)
    requires Ring(s) && k < |s| && node == s[k] && spare !in s
    modifies spare, node.next, node.prev
    ensures Ring(s[k := spare])
  {
    assert k > 0 ==> Joined(s[k - 1], s[k]);
    assert k < |s| - 1 ==> Joined(s[k], s[k + 1]);
    spare.next := node.next;
    spare.next.prev := spare;
    spare.prev := node.prev;
    spare.prev.next := spare;
    ghost var t := s[k := spare];
    forall i | 0 <= i < |t| - 1
      ensures Joined(t[i], t[i + 1])
    {
      assert old(Joined(s[i], s[i + 1]));
    }
  }

  // list_move_tail, within a list or to another one
  method ListMoveTail(node: ListHead, head: ListHead, ghost from: seq<ListHead>, ghost k: nat, ghost s: seq<ListHead>)
    requires Ring(from) && 0 < k < |from| && node == from[k]
    requires Ring([head] + s) && (from == [head] + s || Apart([head] + s, from))
    modifies from, [head] + s
    ensures from == [head] + s ==> Ring(from[..k] + from[k + 1..] + [node])
    ensures from != [head] + s ==> Ring(from[..k] + from[k + 1..]) && Ring([head] + s + [node])
  {
    hide Ring, Chain;
    ghost var rest := from[..k] + from[k + 1..];
    Stays(from, node);
    Stays([head] + s, head);
    OneFewer(from, k);
    ListDelEntry(node, from, k);
    label Deleted:
    ghost var others := if from == [head] + s then rest[1..] else s;
    if from == [head] + s {
      assert rest == [head] + others;
    }
    Stays([head] + others, head);
    ListAddTail(node, head, others);
    assert from != [head] + s ==> unchanged@Deleted(rest);
  }

  // ---------- cutting and splicing ----------

  // __list_cut_position
  method CutAfter(list: ListHead, head: ListHead, entry: ListHead, ghost a: seq<ListHead>, ghost b: seq<ListHead>)
    requires Ring([head] + a + b) && a != [] && entry == a[|a| - 1] && list !in [head] + a + b
    modifies list, head, head.next, entry, entry.next
    ensures Ring([list] + a) && Ring([head] + b)
  {
    hide Ring;
    assert [head] + a + b == [head] + (a + b);
    RingOfParts(head, a + b);
    ChainOfParts(a, b);
    DistinctParts(a, b);
    var newFirst := entry.next;
    list.next := head.next;
    list.next.prev := list;
    list.prev := entry;
    entry.next := list;
    head.next := newFirst;
    newFirst.prev := head;
    RingOfParts(list, a);
    RingOfParts(head, b);
  }

  // __list_splice, right after the head
  method SpliceAfter(list: ListHead, head: ListHead, ghost a: seq<ListHead>, ghost b: seq<ListHead>)
    requires Ring([list] + a) && Ring([head] + b) && a != [] && Apart([list] + a, [head] + b)
    modifies list.next, list.prev, head, head.next
    ensures Ring([head] + a + b)
  {
    RingOfParts(list, a);
    RingOfParts(head, b);
    ApartParts(list, a, head, b);
    var prev, next := head, head.next;
    var first, last := list.next, list.prev;
    first.prev := prev;
    prev.next := first;
    last.next := next;
    next.prev := last;
    ChainOfParts(a, b);
    DistinctParts(a, b);
    RingOfParts(head, a + b);
    assert [head] + a + b == [head] + (a + b);
  }

  // What list_empty and list_is_singular see
  lemma Sizes(head: ListHead, s: seq<ListHead>)
    requires Ring([head] + s)
    ensures head.next == head <==> s == []
    ensures head.next == head.prev <==> |s| <= 1
  {
    RingOfParts(head, s);
  }

  // list_cut_position: the entries up to and including entry go to list; n is their number
  method ListCutPosition(list: ListHead, head: ListHead, entry: ListHead, ghost s: seq<ListHead>) returns (ghost n: nat)
    requires Ring([head] + s) && list !in [head] + s
    requires entry in [head] + s || |s| <= 1
    modifies list, head, head.next, entry, entry.next
    ensures n <= |s| && if n == 0 then entry !in s else s[n - 1] == entry
    ensures Ring([head] + s[n..])
    ensures n > 0 || (s != [] && entry == head) ==> Ring([list] + s[..n])
    ensures s == [] || (|s| == 1 && entry !in [head] + s) ==>
              unchanged(list) && unchanged([head] + s) && unchanged(entry)
  {
    Sizes(head, s);
    n := 0;
    assert s[0..] == s;
    if head.next == head {
      return;
    }
    if head.next == head.prev && head.next != entry && head != entry {
      SingleEntry(head, s);
      return;
    }
    RingOfParts(head, s);
    if entry == head {
      list.next := list;
      list.prev := list;
      assert [list] + s[..0] == [list];
    } else {
      assert entry in s;
      ghost var k :| 0 <= k < |s| && s[k] == entry;
      n := k + 1;
      assert [head] + s == [head] + s[..n] + s[n..];
      CutAfter(list, head, entry, s[..n], s[n..]);
    }
  }

  lemma SingleEntry(head: ListHead, s: seq<ListHead>)
    requires Ring([head] + s) && |s| <= 1 && s != []
    ensures s == [head.next]
  {
    RingOfParts(head, s);
  }

  // list_splice
  method ListSplice(list: ListHead, head: ListHead, ghost a: seq<ListHead>, ghost b: seq<ListHead>)
    requires Ring([list] + a) && Ring([head] + b) && Apart([list] + a, [head] + b)
    modifies list.next, list.prev, head, head.next
    ensures Ring([head] + a + b)
    ensures a == [] ==> unchanged([head] + b)
  {
    Sizes(list, a);
    if list.next != list {
      SpliceAfter(list, head, a, b);
    } else {
      assert [head] + a + b == [head] + b;
    }
  }

  lemma CutApart(list: ListHead, head: ListHead, s: seq<ListHead>, n: nat)
    requires Distinct([head] + s) && list !in [head] + s && n <= |s|
    ensures Apart([list] + s[..n], [head] + s[n..])
    ensures forall m | m in [list] + s[..n] || m in [head] + s[n..] :: m == list || m in [head] + s
  {
    assert [head] + s == [head] + (s[..n] + s[n..]);
    DistinctParts([head], s[..n] + s[n..]);
    DistinctParts(s[..n], s[n..]);
    assert head in [head];
    assert forall m | m in s[..n] :: m in s[..n] + s[n..];
    ApartParts(list, s[..n], head, s[n..]);
  }

  twostate lemma SameLinks(s: seq<ListHead>)
    requires old(Ring(s)) && Ring(s)
    ensures forall m | m in s :: m.next == old(m.next) && m.prev == old(m.prev)
  {
    forall m | m in s
      ensures m.next == old(m.next) && m.prev == old(m.prev)
    {
      var k :| 0 <= k < |s| && s[k] == m;
      if k + 1 < |s| {
        assert Joined(s[k], s[k + 1]) && old(Joined(s[k], s[k + 1]));
      }
      if k > 0 {
        assert Joined(s[k - 1], s[k]) && old(Joined(s[k - 1], s[k]));
      }
    }
  }

  // Cutting and splicing back restores the list, link by link
  method CutThenSplice(list: ListHead, head: ListHead, entry: ListHead, ghost s: seq<ListHead>)
    requires Ring([head] + s) && Ring([list]) && list !in [head] + s && entry in [head] + s
    modifies list, [head] + s
    ensures Ring([head] + s)
    ensures forall m | m in [head] + s :: m.next == old(m.next) && m.prev == old(m.prev)
  {
    hide Chain, Apart, Distinct, Joined;
    ghost var all := [head] + s;
    Stays(all, head);
    Stays(all, entry);
    ghost var n := ListCutPosition(list, head, entry, s);
    CutApart(list, head, s, n);
    assert s[..0] == [];
    Stays([list] + s[..n], list);
    Stays([head] + s[n..], head);
    ListSplice(list, head, s[..n], s[n..]);
    assert all == [head] + s[..n] + s[n..];
    SameLinks(all);
  }
}

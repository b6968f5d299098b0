/** The circular doubly linked list of `common_list.h`, and its reading as a sequence.

    A ring is described by the sequence of its nodes, starting from the list head. `entry`
    is the structure a node is embedded in, which never changes while the node is linked. */
module IntrusiveList {

  class ListNode<T> {
    var prev: ListNode?<T>
    var next: ListNode?<T>
    const entry: T

    /** A node that belongs to no list yet. */
    constructor (entry: T)
      ensures this.entry == entry
      ensures Ring([this])
    {
      this.entry := entry;
      prev, next := null, null;
      new;
      ListInit(this);
    }
  }

  /** The node after position i of the ring f. */
  function After<T>(f: seq<ListNode<T>>, i: nat): ListNode<T>
    requires i < |f|
  {
    if i + 1 < |f| then f[i + 1] else f[0]
  }

  function Nth<T>(f: seq<ListNode<T>>, i: nat): ListNode<T>
    requires i < |f|
  {
    f[i]
  }

  ghost predicate Distinct<T>(f: seq<ListNode<T>>) {
    forall i, j {:trigger Nth(f, i), Nth(f, j)} :: 0 <= i < j < |f| ==> Nth(f, i) != Nth(f, j)
  }

  /** The plain reading of `Distinct`; the named accessor only keeps the solver from using it everywhere. */
  lemma DistinctPlain<T>(f: seq<ListNode<T>>)
    ensures Distinct(f) <==> forall i, j :: 0 <= i < j < |f| ==> f[i] != f[j]
  {
    if Distinct(f) {
      forall i, j | 0 <= i < j < |f| ensures f[i] != f[j] {
        assert Nth(f, i) != Nth(f, j);
      }
    }
  }

  /** f lists the nodes of one ring in order: every next and prev pointer agrees with it. */
  ghost predicate Ring<T>(f: seq<ListNode<T>>)
    reads f
  {
    && |f| > 0 && Distinct(f)
    && (forall i {:trigger After(f, i)} :: 0 <= i < |f| ==> f[i].next == After(f, i))
    && (forall i {:trigger After(f, i)} :: 0 <= i < |f| ==> After(f, i).prev == f[i])
  }

  method ListInit<T>(list: ListNode<T>)
    modifies list
    ensures Ring([list])
  {
    list.next := list;
    list.prev := list;
  }

  /** Insertion behind a node of the ring; behind the head this prepends. */
  method ListAdd<T>(list: ListNode<T>, node: ListNode<T>, ghost f: seq<ListNode<T>>, ghost k: nat)
    requires Ring(f) && k < |f| && list == f[k] && node !in f
    modifies list, list.next, node
    ensures Ring(f[..k + 1] + [node] + f[k + 1..])
  {
    ghost var g := f[..k + 1] + [node] + f[k + 1..];
    DistinctPlain(f);
    assert list.next == After(f, k);
    node.next := list.next;
    node.prev := list;
    list.next.prev := node;
    list.next := node;
    InsertedDistinct(f, k, node);
    forall i | 0 <= i < |g| ensures g[i].next == After(g, i) && After(g, i).prev == g[i] {
      if i < k {
        assert g[i] == f[i] && After(g, i) == After(f, i);
      } else if i > k + 1 {
        assert g[i] == f[i - 1] && After(g, i) == After(f, i - 1);
      }
    }
  }

  lemma InsertedDistinct<T>(f: seq<ListNode<T>>, k: nat, node: ListNode<T>)
    requires Distinct(f) && k < |f| && node !in f
    ensures Distinct(f[..k + 1] + [node] + f[k + 1..])
  {
    var g := f[..k + 1] + [node] + f[k + 1..];
    DistinctPlain(f);
    DistinctPlain(g);
    assert forall i :: 0 <= i < |g| ==> g[i] == (if i <= k then f[i] else if i == k + 1 then node else f[i - 1]);
  }

  /** Insertion in front of a node of the ring; in front of the head this appends. */
  method ListTailInsert<T>(list: ListNode<T>, node: ListNode<T>, ghost f: seq<ListNode<T>>, ghost k: nat)
    requires Ring(f) && k < |f| && list == f[k] && node !in f
    modifies f, node
    ensures Ring(if k == 0 then f + [node] else f[..k] + [node] + f[k..])
  {
    ghost var j := if k == 0 then |f| - 1 else k - 1;
    assert list == After(f, j);
    assert list.prev == f[j];
    ListAdd(list.prev, node, f, j);
    assert k == 0 ==> f[..j + 1] + [node] + f[j + 1..] == f + [node];
  }

  /** Deletion takes exactly that node out of its ring and leaves it linked to itself, so a second
      deletion changes nothing; a node with a null link is only linked to itself. */
  method ListDelete<T>(node: ListNode<T>, ghost f: seq<ListNode<T>>, ghost k: nat)
    requires node.next != null && node.prev != null ==> Ring(f) && k < |f| && node == f[k]
    modifies node, node.next, node.prev
    ensures Ring([node])
    ensures old(node.next) != null && old(node.prev) != null && |f| > 1 ==> Ring(f[..k] + f[k + 1..])
    ensures old(node.next) != null && old(node.prev) != null && |f| == 1 ==>
              node.next == old(node.next) && node.prev == old(node.prev)
  {
    ghost var g := if k < |f| then f[..k] + f[k + 1..] else [];
    ghost var j := if k == 0 then |f| - 1 else k - 1;
    DistinctPlain(f);
    if node.next != null && node.prev != null {
      assert After(f, j) == node && node.prev == f[j] && node.next == After(f, k);
      node.next.prev := node.prev;
      node.prev.next := node.next;
    }
    node.next := node;
    node.prev := node;
    if old(node.next) != null && old(node.prev) != null && |f| > 1 {
      DeletedDistinct(f, k);
      forall i | 0 <= i < |g| ensures g[i].next == After(g, i) && After(g, i).prev == g[i] {
        DeletedAfter(f, k, i);
        var o := if i < k then i else i + 1;
        assert old(f[o].next) == After(f, o) && old(After(f, o).prev) == f[o];
      }
    }
  }

  /** The successors after a deletion: those of the ring before, except across the gap. */
  lemma DeletedAfter<T>(f: seq<ListNode<T>>, k: nat, i: nat)
    requires Distinct(f) && k < |f| && i < |f| - 1
    ensures var g, j, o := f[..k] + f[k + 1..], if k == 0 then |f| - 1 else k - 1, if i < k then i else i + 1;
            && g[i] == f[o] && f[o] != f[k]
            && (if o == j then After(g, i) == After(f, k)
                else f[o] != f[j] && After(g, i) == After(f, o) && After(f, o) != f[k] && After(f, o) != After(f, k))
  {
    DistinctPlain(f);
  }

  lemma DeletedDistinct<T>(f: seq<ListNode<T>>, k: nat)
    requires Distinct(f) && k < |f|
    ensures Distinct(f[..k] + f[k + 1..])
  {
    var g := f[..k] + f[k + 1..];
    DistinctPlain(f);
    DistinctPlain(g);
    assert forall i :: 0 <= i < |g| ==> g[i] == (if i < k then f[i] else f[i + 1]);
  }

  method IsListEmpty<T>(node: ListNode<T>, ghost f: seq<ListNode<T>>) returns (empty: bool)
    requires Ring(f) && f[0] == node
    ensures empty <==> |f| == 1
  {
    DistinctPlain(f);
    assert node.next == After(f, 0);
    empty := node.next == node;
  }

  function Entries<T>(s: seq<ListNode<T>>): (e: seq<T>)
    ensures |e| == |s| && forall i :: 0 <= i < |s| ==> e[i] == s[i].entry
  {
    seq(|s|, i requires 0 <= i < |s| => s[i].entry)
  }

  /** The elements that do not satisfy p, in order. */
  function Without<T>(s: seq<T>, p: T -> bool): seq<T> {
    if s == [] then []
    else Without(s[..|s| - 1], p) + if p(s[|s| - 1]) then [] else [s[|s| - 1]]
  }

  /** The elements that satisfy p, in order. */
  function Matching<T>(s: seq<T>, p: T -> bool): seq<T> {
    if s == [] then []
    else Matching(s[..|s| - 1], p) + if p(s[|s| - 1]) then [s[|s| - 1]] else []
  }

  lemma {:induction false} WithoutConcat<T>(a: seq<T>, b: seq<T>, p: T -> bool)
    ensures Without(a + b, p) == Without(a, p) + Without(b, p)
    decreases b
  {
    if b == [] {
      assert a + b == a;
    } else {
      assert (a + b)[..|a + b| - 1] == a + b[..|b| - 1];
      WithoutConcat(a, b[..|b| - 1], p);
    }
  }

  lemma {:induction false} MatchingConcat<T>(a: seq<T>, b: seq<T>, p: T -> bool)
    ensures Matching(a + b, p) == Matching(a, p) + Matching(b, p)
    decreases b
  {
    if b == [] {
      assert a + b == a;
    } else {
      assert (a + b)[..|a + b| - 1] == a + b[..|b| - 1];
      MatchingConcat(a, b[..|b| - 1], p);
    }
  }

  /** The two lists part by part: an element goes to exactly one of them and keeps its place there. */
  lemma FilterParts<T>(a: seq<T>, x: T, b: seq<T>, p: T -> bool)
    ensures Without(a + [x] + b, p) == Without(a, p) + (if p(x) then [] else [x]) + Without(b, p)
    ensures Matching(a + [x] + b, p) == Matching(a, p) + (if p(x) then [x] else []) + Matching(b, p)
  {
    assert [x][..0] == [];
    WithoutConcat(a, [x], p);
    WithoutConcat(a + [x], b, p);
    MatchingConcat(a, [x], p);
    MatchingConcat(a + [x], b, p);
  }

  lemma {:induction false} SameTest<T>(s: seq<T>, p: T -> bool, q: T -> bool)
    requires forall x :: x in s ==> p(x) == q(x)
    ensures Without(s, p) == Without(s, q) && Matching(s, p) == Matching(s, q)
  {
    if s != [] { SameTest(s[..|s| - 1], p, q); }
  }

  function Survivors<T>(s: seq<ListNode<T>>, p: T -> bool): seq<ListNode<T>> {
    if s == [] then []
    else Survivors(s[..|s| - 1], p) + if p(s[|s| - 1].entry) then [] else [s[|s| - 1]]
  }

  lemma {:induction false} SurvivorsEntries<T>(s: seq<ListNode<T>>, p: T -> bool)
    ensures Entries(Survivors(s, p)) == Without(Entries(s), p)
    ensures forall x :: x in Survivors(s, p) ==> x in s
  {
    if s != [] {
      SurvivorsEntries(s[..|s| - 1], p);
      assert Entries(s)[..|s| - 1] == Entries(s[..|s| - 1]);
      assert s == s[..|s| - 1] + [s[|s| - 1]];
    }
  }

  /** The cursor of an iteration that remembers the node after the current one. */
  ghost predicate Cursor<T>(head: ListNode<T>, rest: seq<ListNode<T>>, item: ListNode<T>, nextItem: ListNode<T>) {
    if rest == [] then item == head
    else item == rest[0] && item != head && nextItem == if |rest| > 1 then rest[1] else head
  }

  method First<T>(head: ListNode<T>, ghost s: seq<ListNode<T>>, ghost ring: seq<ListNode<T>>)
    returns (item: ListNode<T>, nextItem: ListNode<T>)
    requires ring == [head] + s && Ring(ring)
    ensures Cursor(head, s, item, nextItem)
  {
    assert ring[0].next == After(ring, 0);
    item := head.next;
    assert [head] + [] + s == ring;
    nextItem := FollowNext(item, head, [], s, ring);
  }

  /** Following the next pointer of the current node, or of the head at the end of the list. */
  method FollowNext<T>(item: ListNode<T>, ghost head: ListNode<T>, ghost kept: seq<ListNode<T>>,
                       ghost rest: seq<ListNode<T>>,
                       ghost ring: seq<ListNode<T>>)
    returns (nextItem: ListNode<T>)
    requires ring == [head] + kept + rest && Ring(ring)
    requires item == if rest != [] then rest[0] else head
    ensures Cursor(head, rest, item, nextItem)
  {
    if rest != [] {
      Neighbours(head, kept, rest);
    } else {
      assert ring[0].next == After(ring, 0);
    }
    nextItem := item.next;
  }

  /** The neighbours of the first node of `rest` in a ring head, kept, rest. */
  lemma Neighbours<T>(head: ListNode<T>, kept: seq<ListNode<T>>, rest: seq<ListNode<T>>)
    requires Ring([head] + kept + rest) && rest != []
    ensures rest[0] != head
    ensures rest[0].next == if |rest| > 1 then rest[1] else head
    ensures rest[0].prev == if kept == [] then head else kept[|kept| - 1]
  {
    var g, k := [head] + kept + rest, 1 + |kept|;
    DistinctPlain(g);
    assert g[k] == rest[0] && g[0] == head;
    assert g[k].next == After(g, k) && After(g, k - 1).prev == g[k - 1];
  }

  ghost function Nodes<T>(f: seq<ListNode<T>>): set<ListNode<T>> {
    set x | x in f
  }

  method DropFirst<T>(item: ListNode<T>, ghost head: ListNode<T>, ghost kept: seq<ListNode<T>>,
                      ghost rest: seq<ListNode<T>>)
    requires Ring([head] + kept + rest) && rest != [] && item == rest[0]
    modifies Nodes([head] + kept + rest)
    ensures Ring([head] + kept + rest[1..])
  {
    ghost var g, k := [head] + kept + rest, 1 + |kept|;
    Neighbours(head, kept, rest);
    assert g[k] == item;
    ListDelete(item, g, k);
    assert g[..k] + g[k + 1..] == [head] + kept + rest[1..];
  }

  lemma MoveOver<T>(head: ListNode<T>, kept: seq<ListNode<T>>, rest: seq<ListNode<T>>)
    requires rest != []
    ensures [head] + (kept + [rest[0]]) + rest[1..] == [head] + kept + rest
    ensures Nodes([head] + kept + rest[1..]) <= Nodes([head] + kept + rest)
  {
    assert rest == [rest[0]] + rest[1..];
  }

  /** How far an iteration that removes what p accepts has come. */
  ghost predicate Progress<T>(s: seq<ListNode<T>>, p: T -> bool, visited: seq<ListNode<T>>, kept: seq<ListNode<T>>,
                              rest: seq<ListNode<T>>, removed: seq<T>) {
    visited + rest == s && kept == Survivors(visited, p) && removed == Matching(Entries(visited), p)
  }

  lemma Advance<T>(s: seq<ListNode<T>>, p: T -> bool, visited: seq<ListNode<T>>, kept: seq<ListNode<T>>,
                   rest: seq<ListNode<T>>, removed: seq<T>)
    requires Progress(s, p, visited, kept, rest, removed) && rest != []
    ensures var x, gone := rest[0], p(rest[0].entry);
            Progress(s, p, visited + [x], if gone then kept
              else kept + [x], rest[1..], removed + if gone then [x.entry] else [])
  {
    assert (visited + [rest[0]])[..|visited|] == visited;
    assert Entries(visited + [rest[0]])[..|visited|] == Entries(visited);
    assert (visited + [rest[0]]) + rest[1..] == visited + rest;
  }

  /** The body of the iteration: the current node goes if the test says so. */
  method Visit<T>(item: ListNode<T>, p: T -> bool, ghost head: ListNode<T>, ghost kept: seq<ListNode<T>>,
                  ghost rest: seq<ListNode<T>>,
                  ghost ring: seq<ListNode<T>>)
    returns (gone: bool, ghost kept': seq<ListNode<T>>, ghost ring': seq<ListNode<T>>)
    requires ring == [head] + kept + rest && Ring(ring) && rest != [] && item == rest[0]
    modifies Nodes(ring)
    ensures gone == p(item.entry) && kept' == (if gone then kept else kept + [item])
    ensures ring' == [head] + kept' + rest[1..] && Ring(ring') && Nodes(ring') <= Nodes(ring)
  {
    MoveOver(head, kept, rest);
    gone := p(item.entry);
    if gone {
      DropFirst(item, head, kept, rest);
      kept' := kept;
    } else {
      kept' := kept + [item];
    }
    ring' := [head] + kept' + rest[1..];
  }

  /** The loop invariant of the safe iteration: what is linked, what was done, where the cursor is. */
  ghost predicate Walking<T>(head: ListNode<T>, s: seq<ListNode<T>>, p: T -> bool, visited: seq<ListNode<T>>,
                             removed: seq<T>, kept: seq<ListNode<T>>, rest: seq<ListNode<T>>, ring: seq<ListNode<T>>)
    reads ring
  {
    && Progress(s, p, visited, kept, rest, removed)
    && ring == [head] + kept + rest && Nodes(ring) <= Nodes([head] + s) && Ring(ring)
  }

  /** One round of the loop. */
  method Round<T>(head: ListNode<T>, p: T -> bool, item: ListNode<T>, nextItem: ListNode<T>,
                  visited: seq<ListNode<T>>, removed: seq<T>,
                  ghost s: seq<ListNode<T>>, ghost kept: seq<ListNode<T>>, ghost rest: seq<ListNode<T>>,
                  ghost ring: seq<ListNode<T>>)
    returns (item': ListNode<T>, nextItem': ListNode<T>, visited': seq<ListNode<T>>, removed': seq<T>,
             ghost kept': seq<ListNode<T>>, ghost ring': seq<ListNode<T>>)
    requires Walking(head, s, p, visited, removed, kept, rest, ring) && Cursor(head, rest, item, nextItem) &&
        item != head
    modifies Nodes(ring)
    ensures Walking(head, s, p, visited', removed', kept', rest[1..], ring') &&
        Cursor(head, rest[1..], item', nextItem')
  {
    Advance(s, p, visited, kept, rest, removed);
    var gone: bool;
    gone, kept', ring' := Visit(item, p, head, kept, rest, ring);
    visited', removed' := visited + [item], removed + if gone then [item.entry] else [];
    item' := nextItem;
    nextItem' := FollowNext(item', head, kept', rest[1..], ring');
  }

  /** The iteration that is safe against deleting the current node: it visits every node of the
      list once, in order, and what stays linked is what the test spared. */
  method RemoveWhere<T>(head: ListNode<T>, p: T -> bool, ghost s: seq<ListNode<T>>)
    returns (visited: seq<ListNode<T>>, removed: seq<T>)
    requires Ring([head] + s)
    modifies Nodes([head] + s)
    ensures visited == s
    ensures Ring([head] + Survivors(s, p))
    ensures removed == Matching(Entries(s), p)
  {
    visited, removed := [], [];
    ghost var kept, rest, ring := [], s, [head] + s;
    var item, nextItem := First(head, s, ring);
    while item != head
      invariant Walking(head, s, p, visited, removed, kept, rest, ring) && Cursor(head, rest, item, nextItem)
      decreases |rest|
    {
      item, nextItem, visited, removed, kept, ring := Round(head, p, item, nextItem, visited, removed, s, kept, rest,
        ring);
      rest := rest[1..];
    }
    assert visited == s && ring == [head] + kept;
  }
}

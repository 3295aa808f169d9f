/** Finding out whether a singly linked list runs into a loop, and where. */
module Cycle {
  import opened Modulo

  class ListNode {
    var next: ListNode?
  }

  /** The successors of these nodes are among them. */
  ghost predicate Closed(nodes: set<ListNode>)
    reads nodes
  {
    forall x :: x in nodes && x.next != null ==> x.next in nodes
  }

  /** The node `k` steps behind `from`, null once the list has ended. */
  ghost function Walk(from: ListNode?, nodes: set<ListNode>, k: nat): (r: ListNode?)
    requires Closed(nodes) && (from == null || from in nodes)
    reads nodes
    ensures r == null || r in nodes
  {
    if k == 0 then from
    else
      var x := Walk(from, nodes, k - 1);
      if x == null then null else x.next
  }

  ghost predicate Endless(head: ListNode?, nodes: set<ListNode>)
    requires Closed(nodes) && (head == null || head in nodes)
    reads nodes
  {
    forall k: nat :: Walk(head, nodes, k) != null
  }

  /** Some steps lead from `x` back to `x`. */
  ghost predicate OnLoop(x: ListNode?, nodes: set<ListNode>)
    requires Closed(nodes) && (x == null || x in nodes)
    reads nodes
  {
    exists k: nat :: k > 0 && x != null && Walk(x, nodes, k) == x
  }

  // ----- the shape of a list

  /** A list is a row of different nodes; the last one is followed by the one at `m`, or by none. */
  ghost predicate Chain(head: ListNode?, p: seq<ListNode>, m: nat)
    reads set x | x in p
  {
    && m <= |p|
    && head == (if p == [] then null else p[0])
    && (forall i, j :: 0 <= i < j < |p| ==> p[i] != p[j])
    && (forall i :: 0 <= i < |p| - 1 ==> p[i].next == p[i + 1])
    && (p != [] ==> p[|p| - 1].next == if m < |p| then p[m] else null)
  }

  /** The place in the row after `k` steps, if there is a loop. */
  ghost function Index(p: seq<ListNode>, m: nat, k: nat): (i: nat)
    requires m < |p|
    ensures i < |p|
  {
    if k < m then k else m + (k - m) % (|p| - m)
  }

  /** The node after `k` steps. */
  ghost function At(p: seq<ListNode>, m: nat, k: nat): ListNode?
    requires m <= |p|
  {
    if m < |p| then p[Index(p, m, k)] else if k < |p| then p[k] else null
  }

  lemma AtNext(p: seq<ListNode>, m: nat, head: ListNode?, k: nat)
    requires Chain(head, p, m) && m < |p|
    ensures At(p, m, k + 1) == p[Index(p, m, k)].next
  {
    if k >= m {
      ModNext(k - m, |p| - m);
      assert k + 1 - m == (k - m) + 1;
    }
    var i := Index(p, m, k);
    if i + 1 == |p| {
      assert Index(p, m, k + 1) == m;
    } else {
      assert Index(p, m, k + 1) == i + 1;
    }
  }

  lemma AtStep(p: seq<ListNode>, m: nat, head: ListNode?, k: nat)
    requires Chain(head, p, m)
    ensures At(p, m, k + 1) == if At(p, m, k) == null then null else At(p, m, k).next
  {
    if m < |p| {
      AtNext(p, m, head, k);
    }
  }

  /** Two different numbers of steps lead to one node exactly if they are whole rounds apart and both lead
      into the loop. */
  lemma Meet(p: seq<ListNode>, m: nat, head: ListNode?, k: nat, d: nat)
    requires Chain(head, p, m) && m < |p|
    ensures At(p, m, k) == At(p, m, k + d) <==> d == 0 || (k >= m && d % (|p| - m) == 0)
  {
    var i, j := Index(p, m, k), Index(p, m, k + d);
    assert i != j ==> p[i] != p[j];
    if k >= m {
      ModSame(k - m, d, |p| - m);
      assert k + d - m == (k - m) + d;
    }
  }

  lemma AtStart(p: seq<ListNode>, m: nat, head: ListNode?)
    requires Chain(head, p, m)
    ensures At(p, m, 0) == head
  {
  }

  lemma {:induction false} WalkIsAt(p: seq<ListNode>, m: nat, head: ListNode?, nodes: set<ListNode>, k: nat)
    requires Chain(head, p, m) && Closed(nodes) && (head == null || head in nodes)
    ensures Walk(head, nodes, k) == At(p, m, k)
  {
    if k > 0 {
      WalkIsAt(p, m, head, nodes, k - 1);
      AtStep(p, m, head, k - 1);
    } else {
      AtStart(p, m, head);
    }
  }

  /** Every list that stays within finitely many nodes has such a shape. */
  lemma HasShape(head: ListNode?, nodes: set<ListNode>) returns (p: seq<ListNode>, m: nat)
    requires Closed(nodes) && (head == null || head in nodes)
    ensures Chain(head, p, m)
  {
    if head == null {
      return [], 0;
    }
    p := [head];
    while p[|p| - 1].next != null && p[|p| - 1].next !in p
      invariant p != [] && p[0] == head && forall x :: x in p ==> x in nodes
      invariant forall i, j :: 0 <= i < j < |p| ==> p[i] != p[j]
      invariant forall i :: 0 <= i < |p| - 1 ==> p[i].next == p[i + 1]
      decreases |nodes| - |p|
    {
      Fewer(p, nodes);
      p := p + [p[|p| - 1].next];
      Fewer(p, nodes);
    }
    var last := p[|p| - 1].next;
    if last == null {
      m := |p|;
    } else {
      m :| m < |p| && p[m] == last;
    }
  }

  lemma {:induction false} Fewer(p: seq<ListNode>, nodes: set<ListNode>)
    requires forall x :: x in p ==> x in nodes
    requires forall i, j :: 0 <= i < j < |p| ==> p[i] != p[j]
    ensures |p| <= |nodes|
    decreases |p|
  {
    if p != [] {
      var x, q := p[|p| - 1], p[..|p| - 1];
      assert x in p;
      forall y | y in q ensures y in nodes - {x} {
        assert y in p;
      }
      Fewer(q, nodes - {x});
    }
  }

  // ----- the two runners

  /** After this many steps the two runners meet, if they can. */
  ghost function Rendezvous(p: seq<ListNode>, m: nat): (k: nat)
    requires m < |p|
    ensures k > 0 && m <= k <= |p| && k % (|p| - m) == 0
  {
    var l := |p| - m;
    if m == 0 then
      Quotient(l, l, 1, 0);
      l
    else
      RoundUp(m, l);
      (m + l - 1) / l * l
  }

  lemma RoundUp(m: nat, l: nat)
    requires m > 0 && l > 0
    ensures var k := (m + l - 1) / l * l; m <= k < m + l && k % l == 0
  {
    var q := (m + l - 1) / l;
    assert m + l - 1 == l * q + (m + l - 1) % l;
    assert q * l == l * q;
    Quotient(q * l, l, q, 0);
  }

  lemma EndlessShape(p: seq<ListNode>, m: nat, head: ListNode?, nodes: set<ListNode>)
    requires Chain(head, p, m) && Closed(nodes) && (head == null || head in nodes)
    ensures Endless(head, nodes) <==> m < |p|
  {
    forall k: nat ensures Walk(head, nodes, k) == At(p, m, k) {
      WalkIsAt(p, m, head, nodes, k);
    }
    if m == |p| {
      assert At(p, m, |p|) == null;
      assert Walk(head, nodes, |p|) == null;
    }
  }

  lemma {:induction false} SameOn(p: seq<ListNode>, m: nat, head: ListNode?, j: nat, k: nat, d: nat)
    requires Chain(head, p, m) && At(p, m, j) == At(p, m, k)
    ensures At(p, m, j + d) == At(p, m, k + d)
    decreases d
  {
    if d > 0 {
      SameOn(p, m, head, j, k, d - 1);
      AtStep(p, m, head, j + d - 1);
      AtStep(p, m, head, k + d - 1);
    }
  }

  lemma {:induction false} WalkOn(p: seq<ListNode>, m: nat, head: ListNode?, nodes: set<ListNode>, k: nat, d: nat)
    requires Chain(head, p, m) && Closed(nodes) && (head == null || head in nodes)
    requires At(p, m, k) == null || At(p, m, k) in nodes
    ensures Walk(At(p, m, k), nodes, d) == At(p, m, k + d)
    decreases d
  {
    if d > 0 {
      WalkOn(p, m, head, nodes, k, d - 1);
      AtStep(p, m, head, k + d - 1);
    }
  }

  lemma NoneTwice(p: seq<ListNode>, m: nat, head: ListNode?, k: nat, d: nat)
    requires Chain(head, p, m) && m == |p| && d > 0 && At(p, m, k) != null
    ensures At(p, m, k) != At(p, m, k + d)
  {
  }

  /** The nodes of the loop are those that are reached after `m` steps or more. */
  lemma OnLoopShape(p: seq<ListNode>, m: nat, head: ListNode?, nodes: set<ListNode>, k: nat)
    requires Chain(head, p, m) && Closed(nodes) && (head == null || head in nodes)
    requires At(p, m, k) == null || At(p, m, k) in nodes
    ensures OnLoop(At(p, m, k), nodes) <==> m < |p| && k >= m
  {
    if m < |p| && k >= m {
      var l := |p| - m;
      Quotient(l, l, 1, 0);
      WalkOn(p, m, head, nodes, k, l);
      Meet(p, m, head, k, l);
      assert Walk(At(p, m, k), nodes, l) == At(p, m, k);
    } else {
      forall d: nat | d > 0 && At(p, m, k) != null ensures Walk(At(p, m, k), nodes, d) != At(p, m, k) {
        WalkOn(p, m, head, nodes, k, d);
        if m < |p| {
          Meet(p, m, head, k, d);
        } else {
          NoneTwice(p, m, head, k, d);
        }
      }
    }
  }

  /** `r` is the first node from `head` on that lies on a loop. */
  ghost predicate IsEntry(head: ListNode?, nodes: set<ListNode>, r: ListNode?)
    requires Closed(nodes) && (head == null || head in nodes)
    reads nodes
  {
    exists m: nat :: Walk(head, nodes, m) == r && OnLoop(Walk(head, nodes, m), nodes)
                     && forall k :: 0 <= k < m ==> !OnLoop(Walk(head, nodes, k), nodes)
  }

  lemma EntryShape(p: seq<ListNode>, m: nat, head: ListNode?, nodes: set<ListNode>)
    requires Chain(head, p, m) && m < |p| && Closed(nodes) && (head == null || head in nodes)
    ensures IsEntry(head, nodes, At(p, m, m))
  {
    forall k: nat | k <= m ensures OnLoop(Walk(head, nodes, k), nodes) <==> k == m {
      WalkIsAt(p, m, head, nodes, k);
      OnLoopShape(p, m, head, nodes, k);
    }
    WalkIsAt(p, m, head, nodes, m);
  }

  // ----- the two functions

  /** The runners go on, one node and two nodes. */
  lemma RunnersStep(p: seq<ListNode>, m: nat, head: ListNode?, k: nat)
    requires Chain(head, p, m) && At(p, m, k + k) != null && At(p, m, k + k).next != null
    ensures At(p, m, k) != null && At(p, m, k + 1) == At(p, m, k).next
    ensures At(p, m, (k + 1) + (k + 1)) == At(p, m, k + k).next.next
    ensures m == |p| ==> k < |p| && At(p, m, k + 1) != null
  {
    AtStep(p, m, head, k + k);
    AtStep(p, m, head, k + k + 1);
    AtStep(p, m, head, k);
    assert (k + 1) + (k + 1) == k + k + 1 + 1;
  }

  /** When the runners meet. */
  lemma RunnersMeet(p: seq<ListNode>, m: nat, head: ListNode?, k: nat)
    requires Chain(head, p, m) && k > 0 && At(p, m, k) != null
    ensures At(p, m, k) == At(p, m, k + k) <==> m < |p| && k >= m && k % (|p| - m) == 0
  {
    if m < |p| {
      Meet(p, m, head, k, k);
    } else {
      NoneTwice(p, m, head, k, k);
    }
  }

  /** A runner that takes two nodes at a time has come to the end exactly if there is no loop. */
  lemma RunnersEnd(p: seq<ListNode>, m: nat, head: ListNode?, k: nat)
    requires Chain(head, p, m)
    requires At(p, m, k) == null || At(p, m, k).next == null
    ensures m == |p|
  {
    AtStep(p, m, head, k);
  }

  method HasCircle(head: ListNode?, ghost nodes: set<ListNode>) returns (r: bool)
    requires Closed(nodes) && (head == null || head in nodes)
    ensures r <==> Endless(head, nodes)
  {
    ghost var p, m := HasShape(head, nodes);
    EndlessShape(p, m, head, nodes);
    var fast, slow := head, head;
    ghost var k := 0;
    AtStart(p, m, head);
    while fast != null && fast.next != null
      invariant slow == At(p, m, k) && fast == At(p, m, k + k)
      invariant m < |p| ==> k < Rendezvous(p, m)
      decreases |p| - k
    {
      RunnersStep(p, m, head, k);
      fast := fast.next.next;
      slow := slow.next;
      k := k + 1;
      RunnersMeet(p, m, head, k);
      if slow == fast {
        return true;
      }
    }
    RunnersEnd(p, m, head, k + k);
    return false;
  }

  /** Lets the runners go until they meet or the list ends. */
  method Run(head: ListNode?, ghost p: seq<ListNode>, ghost m: nat) returns (slow: ListNode?, fast: ListNode?, ghost k: nat)
    requires Chain(head, p, m)
    ensures fast == null || fast.next == null <==> m == |p|
    ensures m < |p| ==> slow == At(p, m, k) && k >= m && k % (|p| - m) == 0
  {
    fast, slow := head, head;
    k := 0;
    AtStart(p, m, head);
    while fast != null && fast.next != null
      invariant slow == At(p, m, k) && fast == At(p, m, k + k)
      invariant m < |p| ==> k < Rendezvous(p, m)
      decreases |p| - k
    {
      RunnersStep(p, m, head, k);
      slow := slow.next;
      fast := fast.next.next;
      k := k + 1;
      RunnersMeet(p, m, head, k);
      if slow == fast {
        AtStep(p, m, head, k);
        return;
      }
    }
    RunnersEnd(p, m, head, k + k);
  }

  /** Counts the nodes from `from`, `s` steps into the list, up to `tail`, `t` steps further. */
  method Count(from: ListNode?, tail: ListNode?, ghost head: ListNode?, ghost p: seq<ListNode>, ghost m: nat, ghost s: nat, ghost t: nat)
    returns (len: nat)
    requires Chain(head, p, m) && m < |p| && from == At(p, m, s) && tail == At(p, m, s + t)
    requires forall j :: s <= j < s + t ==> At(p, m, j) != tail
    ensures len == t + 1
  {
    len := 1;
    var node := from;
    while node != tail
      invariant 1 <= len <= t + 1 && node == At(p, m, s + (len - 1))
      decreases t + 1 - len
    {
      AtStep(p, m, head, s + (len - 1));
      node := node.next;
      len := len + 1;
    }
  }

  /** Takes `steps` steps from `from`. */
  method Advance(from: ListNode?, steps: nat, ghost head: ListNode?, ghost p: seq<ListNode>, ghost m: nat, ghost s: nat)
    returns (node: ListNode?)
    requires Chain(head, p, m) && m < |p| && from == At(p, m, s)
    ensures node == At(p, m, s + steps)
  {
    node := from;
    var k := steps;
    while k > 0
      invariant 0 <= k <= steps && node == At(p, m, s + (steps - k))
    {
      AtStep(p, m, head, s + (steps - k));
      node := node.next;
      k := k - 1;
    }
  }

  /** From where the runners have met, how far it is to there from the head, and once around. */
  lemma Distances(p: seq<ListNode>, m: nat, head: ListNode?, k: nat) returns (t: nat)
    requires Chain(head, p, m) && m < |p| && k >= m
    ensures m <= t < |p| && At(p, m, t) == At(p, m, k)
    ensures forall j :: 0 <= j < t ==> At(p, m, j) != At(p, m, k)
    ensures At(p, m, k + (|p| - m)) == At(p, m, k)
    ensures forall j :: k + 1 <= j < k + (|p| - m) ==> At(p, m, j) != At(p, m, k)
  {
    t := Index(p, m, k);
    forall j: nat | j <= t ensures Index(p, m, j) == j {
      if j >= m {
        Quotient(j - m, |p| - m, 0, j - m);
      }
    }
    var l := |p| - m;
    Quotient(l, l, 1, 0);
    Meet(p, m, head, k, l);
    forall j | k + 1 <= j < k + l ensures At(p, m, j) != At(p, m, k) {
      Quotient(j - k, l, 0, j - k);
      Meet(p, m, head, k, j - k);
    }
  }

  /** Two nodes a round apart go on until they are one. */
  method Join(from1: ListNode?, from2: ListNode?, ghost head: ListNode?, ghost p: seq<ListNode>, ghost m: nat, ghost s: nat)
    returns (node: ListNode?)
    requires Chain(head, p, m) && m < |p| && s <= m && from1 == At(p, m, s) && from2 == At(p, m, s + (|p| - m))
    ensures node == At(p, m, m)
  {
    var node1, node2 := from1, from2;
    ghost var i := s;
    ghost var l := |p| - m;
    Quotient(l, l, 1, 0);
    Meet(p, m, head, i, l);
    while node1 != node2
      invariant i <= m && node1 == At(p, m, i) && node2 == At(p, m, i + l)
      invariant node1 == node2 <==> i >= m
      decreases m - i
    {
      AtStep(p, m, head, i);
      AtStep(p, m, head, i + l);
      Meet(p, m, head, i + 1, l);
      assert i + 1 + l == i + l + 1;
      node1 := node1.next;
      node2 := node2.next;
      i := i + 1;
    }
    return node1;
  }

  method GetFirstNodeInCircle(head: ListNode?, ghost nodes: set<ListNode>) returns (r: ListNode?)
    requires Closed(nodes) && (head == null || head in nodes)
    ensures r == null <==> !Endless(head, nodes)
    ensures r != null ==> IsEntry(head, nodes, r)
  {
    ghost var p, m := HasShape(head, nodes);
    EndlessShape(p, m, head, nodes);
    if head == null || head.next == null {
      AtStart(p, m, head);
      RunnersEnd(p, m, head, 0);
      return null;
    }
    var slow, fast;
    ghost var k;
    slow, fast, k := Run(head, p, m);
    if fast == null || fast.next == null {
      return null;
    }
    EntryShape(p, m, head, nodes);
    r := Entry(head, slow, p, m, k);
  }

  /** The entry of the loop, found from a node on it. */
  method Entry(head: ListNode, tail: ListNode?, ghost p: seq<ListNode>, ghost m: nat, ghost k: nat) returns (r: ListNode?)
    requires Chain(head, p, m) && m < |p| && tail == At(p, m, k) && k >= m
    ensures r == At(p, m, m)
  {
    ghost var l := |p| - m;
    ghost var t := Distances(p, m, head, k);
    AtStart(p, m, head);
    AtStep(p, m, head, k);
    var head2 := tail.next;
    var len1 := Count(head, tail, head, p, m, 0, t);
    var len2 := Count(head2, tail, head, p, m, k + 1, l - 1);
    var node1, node2 := head, head2;
    if len1 > len2 {
      node1 := Advance(head, len1 - len2, head, p, m, 0);
      SameOn(p, m, head, t, k, 1);
      r := Join(node1, node2, head, p, m, t + 1 - l);
    } else {
      node2 := Advance(head2, len2 - len1, head, p, m, k + 1);
      SameOn(p, m, head, t, k, l - t);
      assert k + 1 + (len2 - len1) == k + (l - t) && t + (l - t) == 0 + l;
      r := Join(node1, node2, head, p, m, 0);
    }
  }
}

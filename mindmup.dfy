/**
 * The MindMup writer (mindmup.go): a finished tree becomes a mind map whose nodes are
 * numbered in pre-order from a counter and whose children are keyed 1, 2, 3, ... in
 * their order in the tree.
 */
module Mindmup {

  import opened Types

  /**
   * One idea of the map (mindmup.go:26-31): its number, the title, the url attribute and
   * the children keyed by position from 1. The `bnode` attribute prints the node's
   * address and is not modelled.
   */
  datatype MupNode = MupNode(id: int, title: string, url: string, ideas: map<int, MupNode>)

  /** The document asMindMup returns (mindmup.go:44-58), without its constant theme and attributes. */
  datatype MupDoc = MupDoc(formatVersion: int, id: string, title: string, ideas: map<int, MupNode>)

  /** The integers `lo`, ..., `hi - 1`. */
  function Interval(lo: int, hi: int): (r: set<int>)
    ensures forall x :: x in r <==> lo <= x < hi
    decreases hi - lo
  {
    if lo >= hi then {} else {lo} + Interval(lo + 1, hi)
  }

  /** The ideas map built from the converted children, in order: child `k - 1` under key `k`. */
  function Keyed(cs: seq<MupNode>): (r: map<int, MupNode>)
    ensures forall k :: k in r <==> 1 <= k <= |cs|
    ensures forall k :: 1 <= k <= |cs| ==> r[k] == cs[k - 1]
    ensures |r| == |cs|
  {
    if cs == [] then map[] else Keyed(cs[..|cs| - 1])[|cs| := cs[|cs| - 1]]
  }

  // ---------------------------------------------------------------------------------
  // conv (mindmup.go:32-42), with the captured counter threaded through

  /**
   * conv(t) with the counter at `last` on entry: the node takes the next number, then its
   * children are converted in order. Returns the node and the counter on exit.
   */
  function Conv(t: Goal, last: int): (r: (MupNode, int))
    decreases t, 1
  {
    var id := last + 1;
    var subs := ConvAll(t, 0, id);
    (MupNode(id, t.node.title, t.node.link.url, Keyed(subs.0)), subs.1)
  }

  /** The loop of mindmup.go:38-40 from the `i`-th child on. */
  function ConvAll(t: Goal, i: nat, last: int): (r: (seq<MupNode>, int))
    requires i <= |t.node.sub|
    ensures |r.0| == |t.node.sub| - i
    decreases t, 0, |t.node.sub| - i
  {
    if i == |t.node.sub| then ([], last)
    else
      var c := Conv(t.node.sub[i], last);
      var rest := ConvAll(t, i + 1, c.1);
      ([c.0] + rest.0, rest.1)
  }

  /**
   * conv as mindmup.go runs it: the counter is bumped, then a loop fills the ideas map
   * child by child.
   */
  method Convert(t: Goal, last: int) returns (n: MupNode, next: int)
    ensures n == Conv(t, last).0 && next == Conv(t, last).1
    decreases t, 1
  {
    next := last + 1;
    var id := next;
    var ideas;
    ideas, next := ConvertChildren(t, id);
    n := MupNode(id, t.node.title, t.node.link.url, ideas);
  }

  /** The loop of mindmup.go:38-40, with the counter at `last` on entry: child `i` under key `i + 1`. */
  method ConvertChildren(t: Goal, last: int) returns (ideas: map<int, MupNode>, next: int)
    ensures ideas == Keyed(ConvAll(t, 0, last).0) && next == ConvAll(t, 0, last).1
    decreases t, 0
  {
    next := last;
    ideas := map[];
    ghost var done: seq<MupNode> := [];
    var i := 0;
    while i < |t.node.sub|
      invariant i <= |t.node.sub| && ChildrenDone(t, last, i, next, done, ideas)
    {
      var c, after := Convert(t.node.sub[i], next);
      ChildrenStep(t, last, i, next, done, ideas);
      ideas := ideas[i + 1 := c];
      done := done + [c];
      next := after;
      i := i + 1;
    }
    assert ConvAll(t, i, next).0 == [];
    assert done + [] == done;
  }

  /**
   * The state of that loop after `i` children: `done` holds them converted, `ideas` keys
   * them, and the rest of the conversion goes on from the counter `next`.
   */
  ghost predicate ChildrenDone(t: Goal, last: int, i: nat, next: int, done: seq<MupNode>, ideas: map<int, MupNode>)
    requires i <= |t.node.sub|
  {
    && ideas == Keyed(done) && |done| == i
    && ConvAll(t, 0, last).0 == done + ConvAll(t, i, next).0
    && ConvAll(t, 0, last).1 == ConvAll(t, i, next).1
  }

  /** One turn of the loop of mindmup.go:38-40: child `i` joins the children done. */
  lemma ChildrenStep(t: Goal, last: int, i: nat, next: int, done: seq<MupNode>, ideas: map<int, MupNode>)
    requires i < |t.node.sub| && ChildrenDone(t, last, i, next, done, ideas)
    ensures var c := Conv(t.node.sub[i], next);
      ChildrenDone(t, last, i + 1, c.1, done + [c.0], ideas[i + 1 := c.0])
  {
    var c := Conv(t.node.sub[i], next);
    var rest := ConvAll(t, i + 1, c.1).0;
    assert ConvAll(t, i, next).0 == [c.0] + rest;
    assert done + ([c.0] + rest) == (done + [c.0]) + rest;
    assert (done + [c.0])[..|done|] == done;
  }

  /** asMindMup (mindmup.go:20-60): the root converted with the counter at 0, under the fixed header. */
  function AsMindMup(t: Goal): (r: MupDoc)
    ensures r.formatVersion == 3 && r.id == "root" && r.title == t.node.title
    ensures forall k :: k in r.ideas <==> 1 <= k <= |t.node.sub|
  {
    var root := Conv(t, 0).0;
    ConvShape(t, 0);
    MupDoc(3, "root", root.title, root.ideas)
  }

  // ---------------------------------------------------------------------------------
  // The numbering

  /** Every number used in a converted tree. */
  function Ids(n: MupNode): set<int>
    decreases n, 1
  {
    {n.id} + IdsFrom(n, 1)
  }

  /** The numbers used under the children with keys `k` to the size of the map. */
  function IdsFrom(n: MupNode, k: nat): set<int>
    decreases n, 0, |n.ideas| + 1 - k
  {
    if k > |n.ideas| then {}
    else (if k in n.ideas then Ids(n.ideas[k]) else {}) + IdsFrom(n, k + 1)
  }

  /** The numbers used in a list of converted children. */
  function IdsAll(cs: seq<MupNode>): set<int>
  {
    if cs == [] then {} else Ids(cs[0]) + IdsAll(cs[1..])
  }

  /** Number of ideas in a converted tree, counting the children with keys 1 to the size of the map. */
  function Count(n: MupNode): nat
    decreases n, 1
  {
    1 + CountFrom(n, 1)
  }

  function CountFrom(n: MupNode, k: nat): nat
    decreases n, 0, |n.ideas| + 1 - k
  {
    if k > |n.ideas| then 0
    else (if k in n.ideas then Count(n.ideas[k]) else 0) + CountFrom(n, k + 1)
  }

  function CountAll(cs: seq<MupNode>): nat
  {
    if cs == [] then 0 else Count(cs[0]) + CountAll(cs[1..])
  }

  /** The children of a node whose map is `Keyed(cs)`, from key `k` on, are `cs[k - 1..]`. */
  lemma {:induction false} KeyedFrom(n: MupNode, cs: seq<MupNode>, k: nat)
    requires n.ideas == Keyed(cs) && 1 <= k <= |cs| + 1
    ensures IdsFrom(n, k) == IdsAll(cs[k - 1..])
    ensures CountFrom(n, k) == CountAll(cs[k - 1..])
    decreases |cs| + 1 - k
  {
    if k <= |cs| {
      KeyedFrom(n, cs, k + 1);
      assert cs[k - 1..][1..] == cs[k..];
    }
  }

  lemma {:induction false} SizeAllSnoc(gs: seq<Goal>, k: nat)
    requires k < |gs|
    ensures SizeAll(gs[..k + 1]) == SizeAll(gs[..k]) + Size(gs[k])
  {
    if k > 0 {
      SizeAllSnoc(gs[1..], k - 1);
      assert gs[1..][..k] == gs[..k + 1][1..];
      assert gs[1..][..k - 1] == gs[..k][1..];
    }
  }

  /** mindmup.go:33-40: conv issues one number per node, so the counter moves on by the tree's size. */
  lemma {:induction false} ConvNext(t: Goal, last: int)
    ensures Conv(t, last).1 == last + Size(t)
    decreases t, 1
  {
    ConvAllNext(t, 0, last + 1);
    assert t.node.sub[0..] == t.node.sub;
  }

  lemma {:induction false} ConvAllNext(t: Goal, i: nat, last: int)
    requires i <= |t.node.sub|
    ensures ConvAll(t, i, last).1 == last + SizeAll(t.node.sub[i..])
    decreases t, 0, |t.node.sub| - i
  {
    var sub := t.node.sub;
    if i == |sub| {
      assert sub[i..] == [];
    } else {
      ConvNext(sub[i], last);
      ConvAllNext(t, i + 1, Conv(sub[i], last).1);
      assert sub[i..][0] == sub[i] && sub[i..][1..] == sub[i + 1..];
    }
  }

  /**
   * The children loop from child `i`: child `i + k` is numbered right after the counter
   * has passed every node of the children before it, and keeps its title and url.
   */
  lemma {:induction false} ConvAllOrder(t: Goal, i: nat, last: int, k: nat)
    requires i + k < |t.node.sub|
    ensures ConvAll(t, i, last).0[k].id == last + 1 + SizeAll(t.node.sub[i..i + k])
    ensures ConvAll(t, i, last).0[k].title == t.node.sub[i + k].node.title
    ensures ConvAll(t, i, last).0[k].url == t.node.sub[i + k].node.link.url
    decreases k
  {
    var sub := t.node.sub;
    var c := Conv(sub[i], last);
    var r := ConvAll(t, i, last).0;
    assert r == [c.0] + ConvAll(t, i + 1, c.1).0;
    if k == 0 {
      assert sub[i..i] == [];
    } else {
      ConvNext(sub[i], last);
      ConvAllOrder(t, i + 1, c.1, k - 1);
      assert r[k] == ConvAll(t, i + 1, c.1).0[k - 1];
      assert sub[i..i + k][0] == sub[i] && sub[i..i + k][1..] == sub[i + 1..i + 1 + (k - 1)];
    }
  }

  /**
   * mindmup.go:33-40: conv numbers the node `last + 1`, copies its title and url, and
   * keys its children 1 to n.
   */
  lemma ConvShape(t: Goal, last: int)
    ensures Conv(t, last).0.id == last + 1
    ensures Conv(t, last).0.title == t.node.title && Conv(t, last).0.url == t.node.link.url
    ensures forall k :: k in Conv(t, last).0.ideas <==> 1 <= k <= |t.node.sub|
  {
    assert Conv(t, last).0.ideas == Keyed(ConvAll(t, 0, last + 1).0);
  }

  /**
   * mindmup.go:38-40: child `k` is converted from the `k`-th child of the tree, in order,
   * and numbered after the node and every node of the children before it (pre-order).
   */
  lemma ConvChildren(t: Goal, last: int)
    ensures forall k :: 1 <= k <= |t.node.sub| ==>
      Conv(t, last).0.ideas[k].id == last + 2 + SizeAll(t.node.sub[..k - 1])
      && Conv(t, last).0.ideas[k].title == t.node.sub[k - 1].node.title
  {
    forall k | 1 <= k <= |t.node.sub|
      ensures Conv(t, last).0.ideas[k].id == last + 2 + SizeAll(t.node.sub[..k - 1])
      ensures Conv(t, last).0.ideas[k].title == t.node.sub[k - 1].node.title
    {
      ConvChild(t, last, k);
    }
  }

  lemma ConvChild(t: Goal, last: int, k: nat)
    requires 1 <= k <= |t.node.sub|
    ensures k in Conv(t, last).0.ideas
    ensures Conv(t, last).0.ideas[k].id == last + 2 + SizeAll(t.node.sub[..k - 1])
    ensures Conv(t, last).0.ideas[k].title == t.node.sub[k - 1].node.title
  {
    var sub := t.node.sub;
    var cs := ConvAll(t, 0, last + 1).0;
    ConvAllOrder(t, 0, last + 1, k - 1);
    assert sub[0..0 + (k - 1)] == sub[..k - 1];
    var c := cs[k - 1];
    assert Conv(t, last).0.ideas == Keyed(cs);
    assert Conv(t, last).0.ideas[k] == c;
  }

  /**
   * The numbers conv uses are exactly those the counter passes over: `last + 1` up to its
   * value on exit.
   */
  lemma {:induction false} ConvIds(t: Goal, last: int)
    ensures last < Conv(t, last).1
    ensures forall x :: x in Ids(Conv(t, last).0) <==> last < x <= Conv(t, last).1
    decreases t, 1
  {
    var n := Conv(t, last).0;
    var cs := ConvAll(t, 0, last + 1).0;
    ConvAllIds(t, 0, last + 1);
    assert n.ideas == Keyed(cs);
    KeyedFrom(n, cs, 1);
    assert cs[0..] == cs;
    assert Ids(n) == {last + 1} + IdsAll(cs);
  }

  lemma {:induction false} ConvAllIds(t: Goal, i: nat, last: int)
    requires i <= |t.node.sub|
    ensures last <= ConvAll(t, i, last).1
    ensures forall x :: x in IdsAll(ConvAll(t, i, last).0) <==> last < x <= ConvAll(t, i, last).1
    decreases t, 0, |t.node.sub| - i
  {
    var sub := t.node.sub;
    if i < |sub| {
      var c := Conv(sub[i], last);
      ConvIds(sub[i], last);
      ConvAllIds(t, i + 1, c.1);
      var rest := ConvAll(t, i + 1, c.1);
      var r := ConvAll(t, i, last).0;
      assert r[0] == c.0 && r[1..] == rest.0;
      assert IdsAll(r) == Ids(c.0) + IdsAll(rest.0);
      assert ConvAll(t, i, last).1 == rest.1;
    } else {
      assert ConvAll(t, i, last) == ([], last);
    }
  }

  /** conv produces one idea per node of the tree. */
  lemma {:induction false} ConvCount(t: Goal, last: int)
    ensures Count(Conv(t, last).0) == Size(t)
    decreases t, 1
  {
    var n := Conv(t, last).0;
    var cs := ConvAll(t, 0, last + 1).0;
    ConvAllCount(t, 0, last + 1);
    assert t.node.sub[0..] == t.node.sub;
    assert n.ideas == Keyed(cs);
    KeyedFrom(n, cs, 1);
    assert cs[0..] == cs;
  }

  lemma {:induction false} ConvAllCount(t: Goal, i: nat, last: int)
    requires i <= |t.node.sub|
    ensures CountAll(ConvAll(t, i, last).0) == SizeAll(t.node.sub[i..])
    decreases t, 0, |t.node.sub| - i
  {
    var sub := t.node.sub;
    if i == |sub| {
      assert sub[i..] == [];
    } else {
      var c := Conv(sub[i], last);
      ConvCount(sub[i], last);
      ConvAllCount(t, i + 1, c.1);
      var r := ConvAll(t, i, last).0;
      assert r[0] == c.0 && r[1..] == ConvAll(t, i + 1, c.1).0;
      assert sub[i..][0] == sub[i] && sub[i..][1..] == sub[i + 1..];
    }
  }

  lemma {:induction false} IntervalSize(lo: int, hi: int)
    requires lo <= hi
    ensures |Interval(lo, hi)| == hi - lo
    decreases hi - lo
  {
    if lo < hi {
      IntervalSize(lo + 1, hi);
    }
  }

  /**
   * The mind map asMindMup writes numbers its ideas 1 to the size of the tree, each number
   * used by exactly one idea: as many distinct numbers as there are ideas.
   */
  lemma MindMupIds(t: Goal)
    ensures Ids(Conv(t, 0).0) == Interval(1, Size(t) + 1)
    ensures |Ids(Conv(t, 0).0)| == Count(Conv(t, 0).0) == Size(t)
  {
    ConvIds(t, 0);
    ConvNext(t, 0);
    ConvCount(t, 0);
    assert Ids(Conv(t, 0).0) == Interval(1, Size(t) + 1);
    IntervalSize(1, Size(t) + 1);
  }
}

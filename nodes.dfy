/**
 * The node registry of nodes.go: a tree whose nodes are upserted through an id index,
 * a url index and a bucket of nodes without an id, merged first-writer-wins, and linked
 * by an order-preserving, duplicate-free AddChild.
 *
 * Go's heap of *Node is an arena here: `store[h]` is the node behind pointer `h`, so
 * pointer identity is handle equality, and an in-place update of a node is an update
 * of `store` at its handle.
 */
module Nodes {

  import opened Types

  /** Every child handle of `n` is below `bound`. */
  predicate RecordIn(n: Record, bound: nat)
  {
    forall i :: 0 <= i < |n.sub| ==> n.sub[i] < bound
  }

  /** The state of a Tree apart from its root (nodes.go:11-16), with the node store made explicit. */
  datatype Arena = Arena(
    store: seq<Record>,
    nodes: map<string, Handle>,
    urls: map<string, Handle>,
    unk: seq<Handle>)

  /** Every handle the arena mentions names a stored node. */
  predicate Closed(a: Arena)
  {
    (forall k :: k in a.nodes ==> a.nodes[k] < |a.store|)
    && (forall k :: k in a.urls ==> a.urls[k] < |a.store|)
    && (forall i :: 0 <= i < |a.unk| ==> a.unk[i] < |a.store|)
    && (forall h :: 0 <= h < |a.store| ==> RecordIn(a.store[h], |a.store|))
  }

  /**
   * The registry invariants NewNode keeps: the id index maps each non-empty id to the
   * node with that id, the url index maps each non-empty url to a node with that url,
   * and the bucket holds only nodes without an id.
   */
  predicate Inv(a: Arena)
  {
    Closed(a)
    && (forall k :: k in a.nodes ==> k != "" && a.store[a.nodes[k]].id == k)
    && (forall k :: k in a.urls && k != "" ==> a.store[a.urls[k]].link.url == k)
    && (forall i :: 0 <= i < |a.unk| ==> a.store[a.unk[i]].id == "")
  }

  /** merge (nodes.go:50-70) on the node's fields: each empty field takes the incoming value. */
  function Merge(n: Record, n2: Record): Record
  {
    n.(title := if n.title == "" then n2.title else n.title,
       desc := if n.desc == "" then n2.desc else n.desc,
       link := if n.link.url == "" then n.link.(url := n2.link.url) else n.link,
       priority := if n.priority.None? then n2.priority else n.priority,
       progress := if n.progress.None? then n2.progress else n.progress,
       sub := if |n.sub| == 0 then n2.sub else n.sub)
  }

  /** merge (nodes.go:50-70) on the tree: the node at `h` is filled, and re-indexed by url when its url was empty. */
  function MergeAt(a: Arena, h: Handle, n2: Record): Arena
    requires h < |a.store|
  {
    var n := a.store[h];
    a.(store := a.store[h := Merge(n, n2)],
       urls := if n.link.url == "" then a.urls[n2.link.url := h] else a.urls)
  }

  /** The weak-match test of nodes.go:34: a shared non-empty title or a shared non-empty url. */
  predicate WeakMatch(n: Record, un: Record)
  {
    (n.title != "" && n.title == un.title) || (n.link.url != "" && n.link.url == un.link.url)
  }

  /** The first bucket position at or after `i` whose node weakly matches `n`. */
  function FirstWeak(a: Arena, n: Record, i: nat): (r: Option<nat>)
    requires Closed(a) && i <= |a.unk|
    ensures r.Some? ==> i <= r.value < |a.unk| && WeakMatch(n, a.store[a.unk[r.value]])
    ensures r.Some? ==> forall j :: i <= j < r.value ==> !WeakMatch(n, a.store[a.unk[j]])
    ensures r.None? ==> forall j :: i <= j < |a.unk| ==> !WeakMatch(n, a.store[a.unk[j]])
    decreases |a.unk| - i
  {
    if i == |a.unk| then None
    else if WeakMatch(n, a.store[a.unk[i]]) then Some(i)
    else FirstWeak(a, n, i + 1)
  }

  /** `unk[:i] ++ unk[i+1:]`. */
  function RemoveAt(s: seq<Handle>, i: nat): (r: seq<Handle>)
    requires i < |s|
    ensures |r| == |s| - 1
  {
    s[..i] + s[i + 1..]
  }

  /** A fresh node is stored and, when it has an id, indexed (nodes.go:26-32). */
  function Create(a: Arena, nd: Record): Arena
  {
    var h := |a.store|;
    var a1 := a.(store := a.store + [nd]);
    if nd.id == "" then a1
    else a1.(nodes := a1.nodes[nd.id := h],
             urls := if nd.link.url != "" then a1.urls[nd.link.url := h] else a1.urls)
  }

  /**
   * The end of NewNode's miss path (nodes.go:33-46), once the new node `h` is stored:
   * merge the weakly matching bucket node at `found` into it and drop or replace that
   * entry, or else put an id-less node in the bucket.
   */
  function Settle(a2: Arena, nd: Record, h: Handle, found: Option<nat>): Arena
    requires h < |a2.store|
    requires found.Some? ==> found.value < |a2.unk| && a2.unk[found.value] < |a2.store|
  {
    match found
    case Some(i) =>
      var a3 := MergeAt(a2, h, a2.store[a2.unk[i]]);
      if nd.id != "" then a3.(unk := RemoveAt(a3.unk, i)) else a3.(unk := a3.unk[i := h])
    case None =>
      if nd.id == "" then a2.(unk := a2.unk + [h]) else a2
  }

  /** Tree.NewNode (nodes.go:18-48): the upsert, as the new state and the node returned. */
  function Upsert(a: Arena, nd: Record): (Arena, Handle)
    requires Closed(a) && RecordIn(nd, |a.store|)
  {
    if nd.id in a.nodes then (MergeAt(a, a.nodes[nd.id], nd), a.nodes[nd.id])
    else if nd.link.url in a.nodes then (MergeAt(a, a.nodes[nd.link.url], nd), a.nodes[nd.link.url])
    else
      var a2 := Create(a, nd);
      assert Closed(a2) by { CreateClosed(a, nd); }
      (Settle(a2, nd, |a.store|, FirstWeak(a2, nd, 0)), |a.store|)
  }

  lemma CreateClosed(a: Arena, nd: Record)
    requires Closed(a) && RecordIn(nd, |a.store|)
    ensures Closed(Create(a, nd)) && |Create(a, nd).store| == |a.store| + 1
    ensures Create(a, nd).store[|a.store|] == nd && Create(a, nd).unk == a.unk
  {
  }

  // ---------------------------------------------------------------------------------
  // merge: first writer wins

  /** Each of merge's fields keeps a set value and otherwise takes the incoming one; nothing else changes. */
  lemma MergeFirstWriterWins(n: Record, n2: Record)
    ensures var r := Merge(n, n2);
      && (n.title != "" ==> r.title == n.title) && (n.title == "" ==> r.title == n2.title)
      && (n.desc != "" ==> r.desc == n.desc) && (n.desc == "" ==> r.desc == n2.desc)
      && (n.link.url != "" ==> r.link.url == n.link.url) && (n.link.url == "" ==> r.link.url == n2.link.url)
      && (n.priority.Some? ==> r.priority == n.priority) && (n.priority.None? ==> r.priority == n2.priority)
      && (n.progress.Some? ==> r.progress == n.progress) && (n.progress.None? ==> r.progress == n2.progress)
      && (n.sub != [] ==> r.sub == n.sub) && (n.sub == [] ==> r.sub == n2.sub)
      && r.id == n.id && r.link.title == n.link.title && r.links == n.links && r.parent == n.parent
  {
  }

  /** Merging the same record again changes nothing. */
  lemma MergeIdempotent(n: Record, n2: Record)
    ensures Merge(Merge(n, n2), n2) == Merge(n, n2)
    ensures Merge(n, n) == n
  {
  }

  /** A chain of merges fills each field from the first record that has it, however grouped. */
  lemma MergeAssociative(a: Record, b: Record, c: Record)
    ensures Merge(Merge(a, b), c) == Merge(a, Merge(b, c))
  {
  }

  /** merge keeps the registry invariants, and re-indexes the node under its new url. */
  lemma MergeAtKeepsInv(a: Arena, h: Handle, n2: Record)
    requires Inv(a) && h < |a.store| && RecordIn(n2, |a.store|)
    ensures Inv(MergeAt(a, h, n2))
    ensures MergeAt(a, h, n2).store[h] == Merge(a.store[h], n2)
    ensures a.store[h].link.url == "" ==> MergeAt(a, h, n2).urls[n2.link.url] == h
  {
    var b := MergeAt(a, h, n2);
    assert forall k :: k in b.nodes ==> b.store[b.nodes[k]].id == a.store[a.nodes[k]].id;
  }

  // ---------------------------------------------------------------------------------
  // NewNode

  /** Storing and indexing a fresh node keeps the invariants. */
  lemma CreateKeepsInv(a: Arena, nd: Record)
    requires Inv(a) && RecordIn(nd, |a.store|)
    ensures Inv(Create(a, nd))
  {
    var a2 := Create(a, nd);
    CreateClosed(a, nd);
    forall k | k in a2.nodes ensures k != "" && a2.store[a2.nodes[k]].id == k {
      if k != nd.id { assert a2.store[a2.nodes[k]] == a.store[a.nodes[k]]; }
    }
    forall k | k in a2.urls && k != "" ensures a2.store[a2.urls[k]].link.url == k {
      if !(nd.id != "" && nd.link.url != "" && k == nd.link.url) {
        assert a2.store[a2.urls[k]] == a.store[a.urls[k]];
      }
    }
    forall i | 0 <= i < |a2.unk| ensures a2.store[a2.unk[i]].id == "" {
      assert a2.store[a2.unk[i]] == a.store[a.unk[i]];
    }
  }

  /** Dropping a bucket entry keeps the invariants. */
  lemma RemoveKeepsInv(b: Arena, i: nat)
    requires Inv(b) && i < |b.unk|
    ensures Inv(b.(unk := RemoveAt(b.unk, i)))
  {
    var u := RemoveAt(b.unk, i);
    assert forall j :: 0 <= j < |u| ==> u[j] in b.unk;
  }

  /** Putting a node without an id into the bucket keeps the invariants. */
  lemma BucketKeepsInv(b: Arena, h: Handle, i: nat)
    requires Inv(b) && h < |b.store| && b.store[h].id == ""
    ensures i < |b.unk| ==> Inv(b.(unk := b.unk[i := h]))
    ensures Inv(b.(unk := b.unk + [h]))
  {
  }

  /** The bucket step keeps the invariants. */
  lemma SettleKeepsInv(a2: Arena, nd: Record, h: Handle, found: Option<nat>)
    requires Inv(a2) && h < |a2.store| && a2.store[h].id == nd.id
    requires found.Some? ==> found.value < |a2.unk| && a2.unk[found.value] < |a2.store|
    ensures Inv(Settle(a2, nd, h, found))
  {
    match found
    case Some(i) =>
      var a3 := MergeAt(a2, h, a2.store[a2.unk[i]]);
      MergeAtKeepsInv(a2, h, a2.store[a2.unk[i]]);
      if nd.id != "" {
        RemoveKeepsInv(a3, i);
      } else {
        BucketKeepsInv(a3, h, i);
      }
    case None =>
      if nd.id == "" {
        BucketKeepsInv(a2, h, 0);
      }
  }

  /** NewNode keeps the invariants and returns a stored node. */
  lemma {:induction false} UpsertKeepsInv(a: Arena, nd: Record)
    requires Inv(a) && RecordIn(nd, |a.store|)
    ensures Inv(Upsert(a, nd).0)
    ensures Upsert(a, nd).1 < |Upsert(a, nd).0.store| && |a.store| <= |Upsert(a, nd).0.store|
  {
    if nd.id in a.nodes {
      MergeAtKeepsInv(a, a.nodes[nd.id], nd);
    } else if nd.link.url in a.nodes {
      MergeAtKeepsInv(a, a.nodes[nd.link.url], nd);
    } else {
      var a2 := Create(a, nd);
      CreateClosed(a, nd);
      CreateKeepsInv(a, nd);
      SettleKeepsInv(a2, nd, |a.store|, FirstWeak(a2, nd, 0));
    }
  }

  /** An id already indexed: that node is returned, merged into, and no node is created (nodes.go:19-21). */
  lemma UpsertIdHit(a: Arena, nd: Record)
    requires Closed(a) && RecordIn(nd, |a.store|)
    requires nd.id in a.nodes
    ensures var (b, h) := Upsert(a, nd);
      h == a.nodes[nd.id] && b == MergeAt(a, h, nd) && |b.store| == |a.store| && b.unk == a.unk && b.nodes == a.nodes
  {
  }

  /**
   * With the id unknown, the candidate's URL is looked up in the id index, not the url
   * index (nodes.go:22-24): a node found under that key is merged into and returned.
   */
  lemma UpsertUrlKeysIdIndex(a: Arena, nd: Record)
    requires Closed(a) && RecordIn(nd, |a.store|)
    requires nd.id !in a.nodes && nd.link.url in a.nodes
    ensures var (b, h) := Upsert(a, nd);
      h == a.nodes[nd.link.url] && b == MergeAt(a, h, nd) && b.unk == a.unk
  {
  }

  /** A miss creates the node at a new handle and indexes it by id and url when it has an id (nodes.go:26-32). */
  lemma UpsertMissIndexes(a: Arena, nd: Record)
    requires Closed(a) && RecordIn(nd, |a.store|)
    requires nd.id !in a.nodes && nd.link.url !in a.nodes
    ensures var (b, h) := Upsert(a, nd);
      && h == |a.store| && |b.store| == |a.store| + 1
      && (nd.id != "" ==> b.nodes == a.nodes[nd.id := h])
      && (nd.id == "" ==> b.nodes == a.nodes)
      && (nd.id != "" && nd.link.url != "" ==> b.urls[nd.link.url] == h)
  {
    CreateClosed(a, nd);
    var a2 := Create(a, nd);
    match FirstWeak(a2, nd, 0)
    case Some(i) =>
    case None =>
  }

  /**
   * A weak match (nodes.go:33-42): the first bucket node sharing a title or url is merged
   * into the new node, whose own set fields win; it leaves the bucket when the new node
   * has an id and is replaced in place by it otherwise.
   */
  lemma UpsertWeakMatch(a: Arena, nd: Record, i: nat)
    requires Closed(a) && RecordIn(nd, |a.store|)
    requires nd.id !in a.nodes && nd.link.url !in a.nodes
    requires i < |a.unk| && WeakMatch(nd, a.store[a.unk[i]])
    requires forall j :: 0 <= j < i ==> !WeakMatch(nd, a.store[a.unk[j]])
    ensures var (b, h) := Upsert(a, nd);
      && h == |a.store| && b.store[h] == Merge(nd, a.store[a.unk[i]])
      && (nd.id != "" ==> b.unk == a.unk[..i] + a.unk[i + 1..])
      && (nd.id == "" ==> b.unk == a.unk[i := h])
  {
    CreateClosed(a, nd);
    var a2 := Create(a, nd);
    assert a2.store[a2.unk[i]] == a.store[a.unk[i]];
    assert FirstWeak(a2, nd, 0) == Some(i);
  }

  /** NewNode changes the bucket's size by at most one, and says when (nodes.go:33-46). */
  lemma UpsertBucketSize(a: Arena, nd: Record)
    requires Closed(a) && RecordIn(nd, |a.store|)
    ensures var b := Upsert(a, nd).0;
      && (nd.id in a.nodes || nd.link.url in a.nodes ==> |b.unk| == |a.unk|)
      && (nd.id !in a.nodes && nd.link.url !in a.nodes ==>
            (exists i :: 0 <= i < |a.unk| && WeakMatch(nd, a.store[a.unk[i]]))
              ==> |b.unk| == if nd.id != "" then |a.unk| - 1 else |a.unk|)
      && (nd.id !in a.nodes && nd.link.url !in a.nodes ==>
            (forall i :: 0 <= i < |a.unk| ==> !WeakMatch(nd, a.store[a.unk[i]]))
              ==> |b.unk| == if nd.id == "" then |a.unk| + 1 else |a.unk|)
  {
    if nd.id !in a.nodes && nd.link.url !in a.nodes {
      CreateClosed(a, nd);
      var a2 := Create(a, nd);
      assert forall i :: 0 <= i < |a.unk| ==> a2.store[a2.unk[i]] == a.store[a.unk[i]];
    }
  }

  /**
   * Registering the same description twice yields one node: a node with an id is found
   * again by the second NewNode.
   */
  lemma UpsertTwiceSameNode(a: Arena, nd: Record)
    requires Inv(a) && RecordIn(nd, |a.store|)
    requires nd.id != ""
    ensures var (b, h) := Upsert(a, nd);
      RecordIn(nd, |b.store|) && Closed(b) && Upsert(b, nd).1 == h && |Upsert(b, nd).0.store| == |b.store|
  {
    UpsertKeepsInv(a, nd);
    var (b, h) := Upsert(a, nd);
    assert |b.store| >= |a.store|;
    if nd.id !in a.nodes && nd.link.url !in a.nodes {
      CreateClosed(a, nd);
      var a2 := Create(a, nd);
      assert a2.nodes[nd.id] == h;
      match FirstWeak(a2, nd, 0)
      case Some(i) =>
      case None =>
    }
  }

  // ---------------------------------------------------------------------------------
  // AddChild

  /** Node.AddChild (nodes.go:99-114) on the child list: each argument not yet present is appended. */
  function AddChildren(sub: seq<Handle>, arr: seq<Handle>): seq<Handle>
    decreases |arr|
  {
    if arr == [] then sub
    else AddChildren(if arr[0] in sub then sub else sub + [arr[0]], arr[1..])
  }

  predicate NoDup(s: seq<Handle>)
  {
    forall i, j :: 0 <= i < j < |s| ==> s[i] != s[j]
  }

  /**
   * AddChild keeps the old children as a prefix, ends with exactly the old children and
   * the arguments, and introduces no duplicate.
   */
  lemma {:induction false} AddChildrenSpec(sub: seq<Handle>, arr: seq<Handle>)
    ensures var r := AddChildren(sub, arr);
      && |sub| <= |r| && r[..|sub|] == sub
      && (forall x :: x in r <==> x in sub || x in arr)
      && (NoDup(sub) ==> NoDup(r))
    decreases |arr|
  {
    if arr != [] {
      var s1 := if arr[0] in sub then sub else sub + [arr[0]];
      AddChildrenSpec(s1, arr[1..]);
      var r := AddChildren(s1, arr[1..]);
      assert r[..|sub|] == r[..|s1|][..|sub|];
      forall x ensures x in arr <==> x == arr[0] || x in arr[1..] {
        assert arr == [arr[0]] + arr[1..];
      }
      if NoDup(sub) && arr[0] !in sub {
        assert NoDup(s1);
      }
    }
  }

  /** Adding children that are all present already changes nothing; adding the same list twice is adding it once. */
  lemma {:induction false} AddChildrenIdempotent(sub: seq<Handle>, arr: seq<Handle>)
    ensures (forall x :: x in arr ==> x in sub) ==> AddChildren(sub, arr) == sub
    ensures AddChildren(AddChildren(sub, arr), arr) == AddChildren(sub, arr)
  {
    if forall x :: x in arr ==> x in sub {
      AllPresent(sub, arr);
    }
    AddChildrenSpec(sub, arr);
    AllPresent(AddChildren(sub, arr), arr);
  }

  lemma {:induction false} AllPresent(sub: seq<Handle>, arr: seq<Handle>)
    requires forall x :: x in arr ==> x in sub
    ensures AddChildren(sub, arr) == sub
    decreases |arr|
  {
    if arr != [] {
      assert arr[0] in sub;
      AllPresent(sub, arr[1..]);
    }
  }

  /** AddChildren grows one argument at a time, left to right. */
  lemma {:induction false} AddChildrenSnoc(sub: seq<Handle>, arr: seq<Handle>, x: Handle)
    ensures AddChildren(sub, arr + [x])
         == var r := AddChildren(sub, arr); if x in r then r else r + [x]
    decreases |arr|
  {
    if arr == [] {
      assert [x][1..] == [];
    } else {
      var s1 := if arr[0] in sub then sub else sub + [arr[0]];
      assert (arr + [x])[1..] == arr[1..] + [x];
      AddChildrenSnoc(s1, arr[1..], x);
    }
  }

  // ---------------------------------------------------------------------------------
  // In-place updates of the arena outside NewNode

  /** AddChild on the tree value: the node at `h` gains the children `arr`. */
  function Attach(a: Arena, h: Handle, arr: seq<Handle>): Arena
  {
    if h < |a.store| then a.(store := a.store[h := a.store[h].(sub := AddChildren(a.store[h].sub, arr))])
    else a
  }

  /** `&Node{...}` outside the registry: a node that is stored but not indexed. */
  function Stored(a: Arena, n: Record): Arena
  {
    a.(store := a.store + [n])
  }

  /** An in-place update of the fields of the node at `h`. */
  function Poke(a: Arena, h: Handle, n: Record): Arena
    requires h < |a.store|
  {
    a.(store := a.store[h := n])
  }

  lemma AttachKeepsInv(a: Arena, h: Handle, arr: seq<Handle>)
    requires Inv(a) && h < |a.store| && forall i :: 0 <= i < |arr| ==> arr[i] < |a.store|
    ensures Inv(Attach(a, h, arr)) && |Attach(a, h, arr).store| == |a.store|
  {
    var b := Attach(a, h, arr);
    AddChildrenSpec(a.store[h].sub, arr);
    var sub := b.store[h].sub;
    forall i | 0 <= i < |sub| ensures sub[i] < |a.store| {
      assert sub[i] in a.store[h].sub || sub[i] in arr;
    }
    assert forall k :: k in b.nodes ==> b.store[b.nodes[k]].id == a.store[a.nodes[k]].id;
    assert forall k :: k in b.urls ==> b.store[b.urls[k]].link == a.store[a.urls[k]].link;
    assert forall j :: 0 <= j < |b.unk| ==> b.store[b.unk[j]].id == a.store[a.unk[j]].id;
  }

  lemma StoredKeepsInv(a: Arena, n: Record)
    requires Inv(a) && RecordIn(n, |a.store|)
    ensures Inv(Stored(a, n))
  {
    var b := Stored(a, n);
    assert forall k :: k in b.nodes ==> b.store[b.nodes[k]] == a.store[a.nodes[k]];
    assert forall k :: k in b.urls ==> b.store[b.urls[k]] == a.store[a.urls[k]];
    assert forall j :: 0 <= j < |b.unk| ==> b.store[b.unk[j]] == a.store[a.unk[j]];
  }

  lemma PokeKeepsInv(a: Arena, h: Handle, n: Record)
    requires Inv(a) && h < |a.store| && RecordIn(n, |a.store|)
    requires n.id == a.store[h].id && n.link.url == a.store[h].link.url
    ensures Inv(Poke(a, h, n))
  {
    var b := Poke(a, h, n);
    assert forall k :: k in b.nodes ==> b.store[b.nodes[k]].id == a.store[a.nodes[k]].id;
    assert forall k :: k in b.urls ==> b.store[b.urls[k]].link.url == a.store[a.urls[k]].link.url;
    assert forall j :: 0 <= j < |b.unk| ==> b.store[b.unk[j]].id == a.store[a.unk[j]].id;
  }

  // ---------------------------------------------------------------------------------
  // Node.Sort, and states equal up to the order of children

  /** `m` is `n` with its children possibly in another order. */
  predicate SameButOrder(n: Record, m: Record)
  {
    n.(sub := m.sub) == m && multiset(n.sub) == multiset(m.sub)
  }

  /** `b` is `a` with the children of each node possibly in another order. */
  predicate Reordered(a: Arena, b: Arena)
  {
    |a.store| == |b.store| && a.nodes == b.nodes && a.urls == b.urls && a.unk == b.unk
    && forall h :: 0 <= h < |a.store| ==> SameButOrder(a.store[h], b.store[h])
  }

  lemma ReorderedTrans(a: Arena, b: Arena, c: Arena)
    requires Reordered(a, b) && Reordered(b, c)
    ensures Reordered(a, c)
  {
    forall h | 0 <= h < |a.store| ensures SameButOrder(a.store[h], c.store[h]) {
      assert SameButOrder(a.store[h], b.store[h]) && SameButOrder(b.store[h], c.store[h]);
    }
  }

  /** Reordering children keeps the registry invariants. */
  lemma ReorderedInv(a: Arena, b: Arena)
    requires Inv(a) && Reordered(a, b)
    ensures Inv(b)
  {
    forall h | 0 <= h < |b.store| ensures RecordIn(b.store[h], |b.store|) {
      assert SameButOrder(a.store[h], b.store[h]);
      forall i | 0 <= i < |b.store[h].sub| ensures b.store[h].sub[i] < |b.store| {
        assert b.store[h].sub[i] in multiset(a.store[h].sub);
      }
    }
    assert forall k :: k in b.nodes ==> b.store[b.nodes[k]].id == a.store[a.nodes[k]].id;
  }

  /** AddChild only asks which children are present, so reordered lists stay reordered. */
  lemma {:induction false} AddChildrenReordered(p: seq<Handle>, q: seq<Handle>, arr: seq<Handle>)
    requires multiset(p) == multiset(q)
    ensures multiset(AddChildren(p, arr)) == multiset(AddChildren(q, arr))
    decreases |arr|
  {
    if arr != [] {
      assert arr[0] in p <==> arr[0] in multiset(q);
      var p1 := if arr[0] in p then p else p + [arr[0]];
      var q1 := if arr[0] in q then q else q + [arr[0]];
      AddChildrenReordered(p1, q1, arr[1..]);
    }
  }

  lemma AttachReordered(a: Arena, b: Arena, h: Handle, arr: seq<Handle>)
    requires Reordered(a, b)
    ensures Reordered(Attach(a, h, arr), Attach(b, h, arr))
  {
    if h < |a.store| {
      assert SameButOrder(a.store[h], b.store[h]);
      AddChildrenReordered(a.store[h].sub, b.store[h].sub, arr);
    }
  }

  lemma StoredReordered(a: Arena, b: Arena, n: Record)
    requires Reordered(a, b)
    ensures Reordered(Stored(a, n), Stored(b, n))
  {
  }

  lemma PokeReordered(a: Arena, b: Arena, h: Handle, n: Record, m: Record)
    requires Reordered(a, b) && h < |a.store| && SameButOrder(n, m)
    ensures Reordered(Poke(a, h, n), Poke(b, h, m))
  {
  }

  /** NewNode on reordered states: the same node, and states that stay reordered. */
  lemma UpsertReordered(a: Arena, b: Arena, nd: Record)
    requires Closed(a) && Closed(b) && Reordered(a, b) && RecordIn(nd, |a.store|)
    ensures Upsert(a, nd).1 == Upsert(b, nd).1
    ensures Reordered(Upsert(a, nd).0, Upsert(b, nd).0)
  {
    if nd.id in a.nodes {
      MergeAtReordered(a, b, a.nodes[nd.id], nd, nd);
    } else if nd.link.url in a.nodes {
      MergeAtReordered(a, b, a.nodes[nd.link.url], nd, nd);
    } else {
      var a2 := Create(a, nd);
      var b2 := Create(b, nd);
      CreateClosed(a, nd);
      CreateClosed(b, nd);
      assert Reordered(a2, b2);
      FirstWeakReordered(a2, b2, nd, 0);
      SettleReordered(a2, b2, nd, |a.store|, FirstWeak(a2, nd, 0));
    }
  }

  lemma MergeAtReordered(a: Arena, b: Arena, h: Handle, n: Record, m: Record)
    requires Reordered(a, b) && h < |a.store| && SameButOrder(n, m)
    ensures Reordered(MergeAt(a, h, n), MergeAt(b, h, m))
  {
    assert SameButOrder(a.store[h], b.store[h]);
    assert SameButOrder(Merge(a.store[h], n), Merge(b.store[h], m));
  }

  lemma SettleReordered(a: Arena, b: Arena, nd: Record, h: Handle, found: Option<nat>)
    requires Reordered(a, b) && h < |a.store|
    requires found.Some? ==> found.value < |a.unk| && a.unk[found.value] < |a.store|
    ensures Reordered(Settle(a, nd, h, found), Settle(b, nd, h, found))
  {
    match found {
      case Some(i) =>
        assert SameButOrder(a.store[a.unk[i]], b.store[b.unk[i]]);
        MergeAtReordered(a, b, h, a.store[a.unk[i]], b.store[b.unk[i]]);
      case None =>
    }
  }

  lemma {:induction false} FirstWeakReordered(a: Arena, b: Arena, nd: Record, i: nat)
    requires Closed(a) && Closed(b) && Reordered(a, b) && i <= |a.unk|
    ensures FirstWeak(a, nd, i) == FirstWeak(b, nd, i)
    decreases |a.unk| - i
  {
    if i < |a.unk| {
      assert SameButOrder(a.store[a.unk[i]], b.store[b.unk[i]]);
      FirstWeakReordered(a, b, nd, i + 1);
    }
  }

  /** A one-element list has only one order. */
  lemma SingletonOrder(p: seq<Handle>, q: seq<Handle>)
    requires multiset(p) == multiset(q) && |p| == 1
    ensures p == q
  {
    assert p[0] in multiset(q);
    assert |q| == |multiset(q)| == 1;
  }

  // ---------------------------------------------------------------------------------
  // Progress

  /** Node.GetProgress (nodes.go:84-97): the explicit non-zero progress, else the count of done children. */
  function ProgressOf(g: Goal): Progress
    decreases g, 1
  {
    match g.node.progress
    case Some(p) => if p != NoProgress then p else Progress(DoneCount(g, |g.node.sub|), |g.node.sub|)
    case None => Progress(DoneCount(g, |g.node.sub|), |g.node.sub|)
  }

  /** How many of the first `k` children of `g` are done. */
  function DoneCount(g: Goal, k: nat): nat
    requires k <= |g.node.sub|
    decreases g, 0, k
  {
    if k == 0 then 0
    else DoneCount(g, k - 1) + if ProgressOf(g.node.sub[k - 1]).IsDone() then 1 else 0
  }

  predicate Explicit(g: Goal)
  {
    g.node.progress.Some? && g.node.progress.value != NoProgress
  }

  /** The counting loop of nodes.go:88-96 computes ProgressOf. */
  method GetProgress(g: Goal) returns (p: Progress)
    ensures p == ProgressOf(g)
    ensures Explicit(g) ==> p == g.node.progress.value
    ensures !Explicit(g) ==> p.total == |g.node.sub| && 0 <= p.done <= p.total
    decreases g
  {
    if g.node.progress.Some? && g.node.progress.value != NoProgress {
      return g.node.progress.value;
    }
    var total := |g.node.sub|;
    var done := 0;
    var i := 0;
    while i < total
      invariant 0 <= i <= total
      invariant done == DoneCount(g, i) && done <= i
    {
      var q := GetProgress(g.node.sub[i]);
      if q.IsDone() {
        done := done + 1;
      }
      i := i + 1;
    }
    return Progress(done, total);
  }

  /** Computed progress counts at most every child: Done <= Total. */
  lemma {:induction false} DoneCountBound(g: Goal, k: nat)
    requires k <= |g.node.sub|
    ensures DoneCount(g, k) <= k
    ensures DoneCount(g, k) == k <==> forall i :: 0 <= i < k ==> ProgressOf(g.node.sub[i]).IsDone()
  {
    if k > 0 { DoneCountBound(g, k - 1); }
  }

  /** A node without explicit progress is done exactly when all its children are (nodes.go:88-96, 121-123). */
  lemma DoneIffChildrenDone(g: Goal)
    requires !Explicit(g)
    ensures ProgressOf(g).IsDone() <==> forall i :: 0 <= i < |g.node.sub| ==> ProgressOf(g.node.sub[i]).IsDone()
    ensures ProgressOf(g).done <= ProgressOf(g).total == |g.node.sub|
  {
    DoneCountBound(g, |g.node.sub|);
  }

  function Leaf(title: string, progress: Option<Progress>): Goal
  {
    Goal(Blank<Goal>().(title := title, progress := progress))
  }

  /**
   * The aggregation example: children {1,1} and {0,1} give {1,2}; a parent over that
   * node gives {0,1}, and a leaf with no progress counts as done.
   */
  lemma ProgressExample()
    ensures var child := Goal(Blank<Goal>().(sub := [Leaf("a", Some(Progress(1, 1))), Leaf("b", Some(Progress(0, 1)))]));
      && ProgressOf(child) == Progress(1, 2)
      && ProgressOf(Goal(Blank<Goal>().(sub := [child]))) == Progress(0, 1)
    ensures ProgressOf(Leaf("c", None)).IsDone()
  {
    var child := Goal(Blank<Goal>().(sub := [Leaf("a", Some(Progress(1, 1))), Leaf("b", Some(Progress(0, 1)))]));
    assert DoneCount(child, 1) == 1;
    assert DoneCount(child, 2) == 1;
    var top := Goal(Blank<Goal>().(sub := [child]));
    assert DoneCount(top, 1) == 0;
  }

  // ---------------------------------------------------------------------------------
  // From a tree's store to a finished tree

  /** A stored record whose children are replaced by finished trees. */
  function Dress(rec: Record, sub: seq<Goal>): Node<Goal>
  {
    Node(rec.id, rec.title, rec.desc, rec.link, rec.links, rec.priority, rec.progress, sub, rec.parent)
  }

  /**
   * The finished tree that the node `h` of a store stands for, as the recursive walks
   * over a tree (GetProgress, writeMDTree, asMindMup) see it: the child handles are
   * followed in order, and a node reached under two parents is visited under each.
   * `fuel` bounds the depth; None when it runs out or a handle is outside the store.
   */
  function Unfold(store: seq<Record>, h: Handle, fuel: nat): (r: Option<Goal>)
    ensures r.Some? ==> h < |store| && fuel > 0 && r.value.node == Dress(store[h], r.value.node.sub)
    decreases fuel, 0
  {
    if h >= |store| || fuel == 0 then None
    else
      match UnfoldAll(store, store[h].sub, fuel - 1)
      case None => None
      case Some(gs) => Some(Goal(Dress(store[h], gs)))
  }

  /** The children of a node unfolded one by one: defined exactly when every one is. */
  function UnfoldAll(store: seq<Record>, hs: seq<Handle>, fuel: nat): (r: Option<seq<Goal>>)
    ensures r.Some? <==> forall i :: 0 <= i < |hs| ==> Unfold(store, hs[i], fuel).Some?
    ensures r.Some? ==> |r.value| == |hs| && forall i :: 0 <= i < |hs| ==> Unfold(store, hs[i], fuel) == Some(r.value[i])
    decreases fuel, 1, |hs|
  {
    if hs == [] then Some([])
    else
      match Unfold(store, hs[0], fuel)
      case None => None
      case Some(g) =>
        match UnfoldAll(store, hs[1..], fuel)
        case None => None
        case Some(gs) => Some([g] + gs)
  }

  /** The unfolded node keeps its record's fields and has one finished child per child handle. */
  lemma UnfoldChildren(store: seq<Record>, h: Handle, fuel: nat)
    requires Unfold(store, h, fuel).Some?
    ensures var g := Unfold(store, h, fuel).value;
      && fuel > 0 && |g.node.sub| == |store[h].sub|
      && forall i :: 0 <= i < |g.node.sub| ==> Unfold(store, store[h].sub[i], fuel - 1) == Some(g.node.sub[i])
  {
  }

  /** Conversely, children that all unfold give the node its record over their trees. */
  lemma UnfoldOver(store: seq<Record>, h: Handle, fuel: nat, gs: seq<Goal>)
    requires h < |store| && fuel > 0 && |gs| == |store[h].sub|
    requires forall i :: 0 <= i < |gs| ==> Unfold(store, store[h].sub[i], fuel - 1) == Some(gs[i])
    ensures Unfold(store, h, fuel) == Some(Goal(Dress(store[h], gs)))
  {
    UnfoldStep(store, h, fuel);
    var r := UnfoldAll(store, store[h].sub, fuel - 1);
    assert r.Some? && r.value == gs;
  }

  /** More fuel does not change a finished tree once there is one. */
  lemma {:induction false} UnfoldMore(store: seq<Record>, h: Handle, fuel: nat, more: nat)
    requires Unfold(store, h, fuel).Some? && fuel <= more
    ensures Unfold(store, h, more) == Unfold(store, h, fuel)
    decreases fuel, 0
  {
    var f, m := fuel - 1, more - 1;
    UnfoldStep(store, h, fuel);
    UnfoldStep(store, h, more);
    hide Unfold, UnfoldAll;
    var gs := UnfoldAll(store, store[h].sub, f);
    assert gs.Some?;
    UnfoldAllMore(store, store[h].sub, f, m);
    assert UnfoldAll(store, store[h].sub, m) == gs;
  }

  lemma {:induction false} UnfoldAllMore(store: seq<Record>, hs: seq<Handle>, fuel: nat, more: nat)
    requires UnfoldAll(store, hs, fuel).Some? && fuel <= more
    ensures UnfoldAll(store, hs, more) == UnfoldAll(store, hs, fuel)
    decreases fuel, 1
  {
    forall i | 0 <= i < |hs|
      ensures Unfold(store, hs[i], more) == Unfold(store, hs[i], fuel)
    {
      UnfoldMore(store, hs[i], fuel, more);
    }
    UnfoldAllSame(store, hs, fuel, more);
  }

  /** One level of Unfold, for a node in the store and some fuel. */
  lemma UnfoldStep(store: seq<Record>, h: Handle, fuel: nat)
    requires h < |store| && fuel > 0
    ensures var gs := UnfoldAll(store, store[h].sub, fuel - 1);
      Unfold(store, h, fuel) == if gs.None? then None else Some(Goal(Dress(store[h], gs.value)))
  {
  }

  lemma UnfoldAllSame(store: seq<Record>, hs: seq<Handle>, fuel: nat, more: nat)
    requires UnfoldAll(store, hs, fuel).Some?
    requires forall i :: 0 <= i < |hs| ==> Unfold(store, hs[i], more) == Unfold(store, hs[i], fuel)
    ensures UnfoldAll(store, hs, more) == UnfoldAll(store, hs, fuel)
  {
    var gs := UnfoldAll(store, hs, fuel).value;
    hide Unfold;
    assert UnfoldAll(store, hs, more).Some?;
    var gs' := UnfoldAll(store, hs, more).value;
    assert |gs'| == |gs|;
    forall i | 0 <= i < |gs|
      ensures gs'[i] == gs[i]
    {
      assert Some(gs'[i]) == Unfold(store, hs[i], more);
    }
  }

  /**
   * A store without cycles: every child handle is in the store and of lower rank than
   * its parent (the height of the node below it will do).
   */
  ghost predicate Ranked(store: seq<Record>, rank: seq<nat>)
  {
    && |rank| == |store|
    && forall x, i :: 0 <= x < |store| && 0 <= i < |store[x].sub| ==> store[x].sub[i] < |store| && rank[store[x].sub[i]] < rank[x]
  }

  /** On a store without cycles every node unfolds, with its rank plus one as fuel. */
  lemma {:induction false} UnfoldTotal(store: seq<Record>, rank: seq<nat>, h: Handle, fuel: nat)
    requires Ranked(store, rank) && h < |store| && rank[h] < fuel
    ensures Unfold(store, h, fuel).Some?
    decreases fuel
  {
    var hs := store[h].sub;
    forall i | 0 <= i < |hs|
      ensures Unfold(store, hs[i], fuel - 1).Some?
    {
      UnfoldTotal(store, rank, hs[i], fuel - 1);
    }
  }

  /** Every node of `loop` is in the store and has a child in `loop`. */
  ghost predicate Loop(store: seq<Record>, loop: set<Handle>)
  {
    forall x :: x in loop ==> x < |store| && exists i :: 0 <= i < |store[x].sub| && store[x].sub[i] in loop
  }

  /**
   * On a cycle the walk never ends: when every node of `loop` has a child in `loop`,
   * no node of it unfolds, whatever the fuel (the Go recursion does not return).
   */
  lemma {:induction false} UnfoldCycle(store: seq<Record>, loop: set<Handle>, h: Handle, fuel: nat)
    requires h in loop && Loop(store, loop)
    ensures Unfold(store, h, fuel).None?
    decreases fuel
  {
    if fuel > 0 {
      var i :| 0 <= i < |store[h].sub| && store[h].sub[i] in loop;
      UnfoldCycle(store, loop, store[h].sub[i], fuel - 1);
      assert Unfold(store, store[h].sub[i], fuel - 1).None?;
    }
  }

  // ---------------------------------------------------------------------------------
  // The tree object

  /** A Tree (nodes.go:3-16): its root, the node store and the three indexes. */
  class Tree {
    var root: Handle
    var store: seq<Record>
    var nodes: map<string, Handle>
    var urls: map<string, Handle>
    var unk: seq<Handle>

    function Snapshot(): Arena
      reads this
    {
      Arena(store, nodes, urls, unk)
    }

    predicate Valid()
      reads this
    {
      Inv(Snapshot()) && root < |store|
    }

    /** NewTree (nodes.go:3-9): an empty root and empty indexes. */
    constructor ()
      ensures Valid() && root == 0 && store == [Blank()]
      ensures nodes == map[] && urls == map[] && unk == []
    {
      root := 0;
      store := [Blank()];
      nodes := map[];
      urls := map[];
      unk := [];
    }

    /** merge (nodes.go:50-70), field by field. */
    method Merge(h: Handle, n2: Record)
      requires Valid() && h < |store| && RecordIn(n2, |store|)
      modifies this
      ensures Valid() && root == old(root)
      ensures Snapshot() == MergeAt(old(Snapshot()), h, n2)
    {
      MergeAtKeepsInv(Snapshot(), h, n2);
      var n := store[h];
      if n.title == "" { n := n.(title := n2.title); }
      if n.desc == "" { n := n.(desc := n2.desc); }
      if n.link.url == "" {
        n := n.(link := n.link.(url := n2.link.url));
        urls := urls[n.link.url := h];
      }
      if n.priority.None? { n := n.(priority := n2.priority); }
      if n.progress.None? { n := n.(progress := n2.progress); }
      if |n.sub| == 0 { n := n.(sub := n2.sub); }
      store := store[h := n];
    }

    /** NewNode (nodes.go:18-48). */
    method NewNode(nd: Record) returns (h: Handle)
      requires Valid() && RecordIn(nd, |store|)
      modifies this
      ensures Valid() && root == old(root) && h < |store| && |old(store)| <= |store|
      ensures (Snapshot(), h) == Upsert(old(Snapshot()), nd)
    {
      ghost var a := Snapshot();
      UpsertKeepsInv(a, nd);
      if nd.id in nodes {
        h := nodes[nd.id];
        Merge(h, nd);
        return;
      }
      if nd.link.url in nodes {
        h := nodes[nd.link.url];
        Merge(h, nd);
        return;
      }
      h := Insert(nd);
      var found := FindWeak(nd);
      SettleBucket(nd, h, found);
    }

    /** nodes.go:26-32: the candidate becomes a stored node, indexed by id (and url) when it has an id. */
    method Insert(nd: Record) returns (h: Handle)
      requires Valid() && RecordIn(nd, |store|)
      modifies this
      ensures Valid() && root == old(root) && h == |old(store)|
      ensures Snapshot() == Create(old(Snapshot()), nd)
    {
      CreateClosed(Snapshot(), nd);
      CreateKeepsInv(Snapshot(), nd);
      h := |store|;
      store := store + [nd];
      if nd.id != "" {
        nodes := nodes[nd.id := h];
        if nd.link.url != "" {
          urls := urls[nd.link.url := h];
        }
      }
    }

    /** nodes.go:35-46: act on the outcome of the bucket scan for the new node `h`. */
    method SettleBucket(nd: Record, h: Handle, found: Option<nat>)
      requires Valid() && h < |store| && store[h].id == nd.id
      requires found.Some? ==> found.value < |unk| && unk[found.value] != h
      modifies this
      ensures Valid() && root == old(root)
      ensures Snapshot() == Settle(old(Snapshot()), nd, h, found)
    {
      SettleKeepsInv(Snapshot(), nd, h, found);
      match found {
      case Some(i) =>
        Merge(h, store[unk[i]]);
        if nd.id != "" {
          unk := unk[..i] + unk[i + 1..];
        } else {
          unk := unk[i := h];
        }
      case None =>
        if nd.id == "" {
          unk := unk + [h];
        }
      }
    }

    /** The scan of the bucket at nodes.go:33-34: the first node sharing a title or a url with `nd`. */
    method FindWeak(nd: Record) returns (r: Option<nat>)
      requires Closed(Snapshot())
      ensures r == FirstWeak(Snapshot(), nd, 0)
    {
      var i := 0;
      while i < |unk|
        invariant 0 <= i <= |unk|
        invariant FirstWeak(Snapshot(), nd, 0) == FirstWeak(Snapshot(), nd, i)
      {
        var un := store[unk[i]];
        if (nd.title != "" && nd.title == un.title) || (nd.link.url != "" && nd.link.url == un.link.url) {
          return Some(i);
        }
        i := i + 1;
      }
      return None;
    }

    /** Node.AddChild (nodes.go:99-114) on the node at `h`. */
    method AddChild(h: Handle, arr: seq<Handle>)
      requires Valid() && h < |store| && forall i :: 0 <= i < |arr| ==> arr[i] < |store|
      modifies this
      ensures Valid() && root == old(root) && nodes == old(nodes) && urls == old(urls) && unk == old(unk)
      ensures store == old(store)[h := old(store)[h].(sub := AddChildren(old(store)[h].sub, arr))]
      ensures Snapshot() == Attach(old(Snapshot()), h, arr)
    {
      if |arr| == 0 {
        return;
      }
      var sub: seq<Handle> := store[h].sub;
      var seen: set<Handle> := set x | x in sub;
      var i := 0;
      while i < |arr|
        invariant 0 <= i <= |arr|
        invariant seen == set x | x in sub
        invariant AddChildren(sub, arr[i..]) == AddChildren(old(store)[h].sub, arr)
        invariant forall j :: 0 <= j < |sub| ==> sub[j] < |store|
      {
        assert arr[i..][0] == arr[i] && arr[i..][1..] == arr[i + 1..];
        if arr[i] !in seen {
          sub := sub + [arr[i]];
          seen := seen + {arr[i]};
        }
        i := i + 1;
      }
      assert arr[|arr|..] == [];
      store := store[h := store[h].(sub := sub)];
      assert Inv(Snapshot()) by {
        assert forall k :: k in nodes ==> store[nodes[k]].id == old(store)[nodes[k]].id;
        assert forall k :: k in urls ==> store[urls[k]].link == old(store)[urls[k]].link;
        assert forall j :: 0 <= j < |unk| ==> store[unk[j]].id == old(store)[unk[j]].id;
      }
    }

    /** An in-place update of the node at `h` that keeps its id and url. */
    method Put(h: Handle, n: Record)
      requires Valid() && h < |store|
      requires n.id == store[h].id && n.link.url == store[h].link.url && RecordIn(n, |store|)
      modifies this
      ensures Valid() && root == old(root) && nodes == old(nodes) && urls == old(urls) && unk == old(unk)
      ensures store == old(store)[h := n]
      ensures Snapshot() == Poke(old(Snapshot()), h, n)
    {
      PokeKeepsInv(Snapshot(), h, n);
      store := store[h := n];
    }

    /** A node allocated outside the registry (`&Node{...}`): stored, not indexed. */
    method Alloc(n: Record) returns (h: Handle)
      requires Valid() && RecordIn(n, |store|)
      modifies this
      ensures Valid() && root == old(root) && h == |old(store)|
      ensures Snapshot() == Stored(old(Snapshot()), n)
    {
      StoredKeepsInv(Snapshot(), n);
      h := |store|;
      store := store + [n];
    }

    /**
     * Node.Sort, which the modelled sources call but do not define: some permutation of
     * the node's children, with no particular order assumed.
     */
    method Sort(h: Handle)
      requires Valid() && h < |store|
      modifies this
      ensures Valid() && root == old(root) && nodes == old(nodes) && urls == old(urls) && unk == old(unk)
      ensures |store| == |old(store)| && multiset(store[h].sub) == multiset(old(store)[h].sub)
      ensures store == old(store)[h := old(store)[h].(sub := store[h].sub)]
      ensures Reordered(old(Snapshot()), Snapshot())
    {
      var s: seq<Handle> :| multiset(s) == multiset(store[h].sub);
      assert forall j :: 0 <= j < |s| ==> s[j] in multiset(store[h].sub);
      store := store[h := store[h].(sub := s)];
      assert Inv(Snapshot()) by {
        assert forall k :: k in nodes ==> store[nodes[k]].id == old(store)[nodes[k]].id;
        assert forall k :: k in urls ==> store[urls[k]].link == old(store)[urls[k]].link;
        assert forall j :: 0 <= j < |unk| ==> store[unk[j]].id == old(store)[unk[j]].id;
      }
    }
  }
}

/**
 * The GitHub issue resolver run on a `Tree` (github.go:190-404): the loops and the
 * recursive `resolve` closure as methods that update the tree in place. Each method is
 * proved against the fold of the same name in module Github: it ends with the same
 * outcome, the same index maps, and a tree that differs from the fold's only in the order
 * of children, which `Sort` may change and the fold leaves alone.
 */
module GithubBuild {

  import opened Types
  import opened Scan
  import opened Nodes
  import opened Github

  /** The method's outcome and tree agree with a fold's result up to the order of children. */
  predicate Tracks(r: Result<Index, Error>, spec: Result<(Arena, Index), Error>, now: Arena)
  {
    (r.Err? <==> spec.Err?)
    && (r.Err? ==> r.error == spec.error)
    && (r.Ok? ==> r.value == spec.value.1 && Reordered(spec.value.0, now))
  }

  lemma ReorderedGood(a: Arena, b: Arena, ix: Index)
    requires Good(a, ix) && Reordered(a, b)
    ensures Good(b, ix)
  {
    ReorderedInv(a, b);
    forall x | x in ix.parents ensures x in b.store[ix.parents[x]].sub {
      assert x in multiset(a.store[ix.parents[x]].sub);
    }
  }

  /** The same field update on two records that differ only in the order of their children. */
  lemma SameButOrderUpdate(n: Record, m: Record, n2: Record, m2: Record)
    requires SameButOrder(n, m)
    requires n2.(sub := n.sub) == n2 && m2.(sub := m.sub) == m2
    requires n2.(sub := []) == m2.(sub := [])
    ensures SameButOrder(n2, m2)
  {
  }

  /** NewNode on a tree whose children may be ordered differently from the fold's arena `a`. */
  method NewNodeAs(tr: Tree, nd: Record, ghost a: Arena) returns (h: Handle)
    requires tr.Valid() && Inv(a) && Reordered(a, tr.Snapshot()) && RecordIn(nd, |a.store|)
    modifies tr
    ensures tr.Valid() && tr.root == old(tr.root)
    ensures h == Upsert(a, nd).1 && Reordered(Upsert(a, nd).0, tr.Snapshot())
  {
    UpsertReordered(a, tr.Snapshot(), nd);
    h := tr.NewNode(nd);
  }

  // ---------------------------------------------------------------------------------
  // Indexing and declared parents

  /** One issue of the indexing loop (github.go:241-266). */
  method IndexOne(tr: Tree, ix: Index, iss: Issue, ghost a: Arena) returns (ix2: Index, nd: Handle)
    requires tr.Valid() && Good(a, ix) && ix.parents == map[] && Reordered(a, tr.Snapshot())
    modifies tr
    ensures tr.Valid() && tr.root == old(tr.root)
    ensures ix2 == IndexIssue(a, ix, iss).1 && nd == IndexIssue(a, ix, iss).2
    ensures Reordered(IndexIssue(a, ix, iss).0, tr.Snapshot())
  {
    IndexIssueUnfold(a, ix, iss);
    ghost var up := Upsert(a, IssueRecord(iss));
    nd := NewNodeAs(tr, IssueRecord(iss), a);
    ix2 := Register(ix, iss, nd);
    assert tr.store[nd].parent == up.0.store[nd].parent by {
      assert SameButOrder(up.0.store[nd], tr.Snapshot().store[nd]);
    }
    if iss.local.Some? && tr.store[nd].parent.None? {
      SetParentAs(tr, nd, iss.local.value.node.parent, up.0);
    }
  }

  /** The Put of github.go:258-262: the node at `h` takes the parent link `p`. */
  method SetParentAs(tr: Tree, h: Handle, p: Option<Link>, ghost g: Arena)
    requires tr.Valid() && Inv(g) && Reordered(g, tr.Snapshot()) && h < |g.store|
    modifies tr
    ensures tr.Valid() && tr.root == old(tr.root)
    ensures Reordered(Poke(g, h, g.store[h].(parent := p)), tr.Snapshot())
  {
    ghost var before := tr.Snapshot();
    var n := tr.store[h].(parent := p);
    tr.Put(h, n);
    ghost var m := g.store[h].(parent := p);
    SameButOrderUpdate(g.store[h], before.store[h], m, n);
    PokeReordered(g, before, h, m, n);
  }

  /** The indexing loop of ghRepo.asTree (github.go:239-267). */
  method IndexIssues(tr: Tree, issues: seq<Issue>, ghost s: Arena) returns (ix: Index, nodes: seq<Handle>)
    requires tr.Valid() && Inv(s) && Reordered(s, tr.Snapshot())
    modifies tr
    ensures tr.Valid() && tr.root == old(tr.root)
    ensures ix == IndexUpTo(s, issues).1 && nodes == IndexUpTo(s, issues).2
    ensures Reordered(IndexUpTo(s, issues).0, tr.Snapshot())
  {
    ix := NoIndex;
    nodes := [];
    var i := 0;
    while i < |issues|
      invariant 0 <= i <= |issues|
      invariant tr.Valid() && tr.root == old(tr.root)
      invariant IndexUpTo(s, issues[..i]).1 == ix && IndexUpTo(s, issues[..i]).2 == nodes
      invariant Reordered(IndexUpTo(s, issues[..i]).0, tr.Snapshot())
    {
      IndexUpToStep(s, issues, i);
      ghost var g := IndexUpTo(s, issues[..i]);
      var nd;
      ix, nd := IndexOne(tr, ix, issues[i], g.0);
      nodes := nodes + [nd];
      i := i + 1;
    }
    assert issues[..|issues|] == issues;
  }

  /** One issue of the parent loop (github.go:283-293). */
  method LinkOne(tr: Tree, ix: Index, nd: Handle, ghost a: Arena) returns (r: Result<Index, Error>)
    requires tr.Valid() && Good(a, ix) && Reordered(a, tr.Snapshot()) && nd < |a.store|
    modifies tr
    ensures tr.Valid() && tr.root == old(tr.root)
    ensures Tracks(r, LinkParent(a, ix, nd), tr.Snapshot())
  {
    var p := tr.store[nd].parent;
    if p.None? {
      return Ok(ix);
    }
    var par := ByLink(ix, p.value);
    if par.None? {
      return Err(CannotFindParent(p.value));
    }
    ByLinkStored(a, ix, p.value);
    ghost var before := tr.Snapshot();
    tr.AddChild(par.value, [nd]);
    AttachReordered(a, before, par.value, [nd]);
    return Ok(ix.(parents := ix.parents[nd := par.value]));
  }

  /** The parent loop of ghRepo.asTree (github.go:280-294): the first parent no map knows aborts it. */
  method LinkParents(tr: Tree, ix0: Index, nodes: seq<Handle>, ghost s: Arena) returns (r: Result<Index, Error>)
    requires tr.Valid() && Good(s, ix0) && Reordered(s, tr.Snapshot()) && AllBelow(nodes, |s.store|)
    modifies tr
    ensures tr.Valid() && tr.root == old(tr.root)
    ensures Tracks(r, LinkFrom(s, ix0, nodes, 0), tr.Snapshot())
  {
    var ix := ix0;
    ghost var g := s;
    var i := 0;
    while i < |nodes|
      invariant 0 <= i <= |nodes| && tr.Valid() && tr.root == old(tr.root)
      invariant Good(g, ix) && |g.store| == |s.store| && Reordered(g, tr.Snapshot())
      invariant LinkFrom(s, ix0, nodes, 0) == LinkFrom(g, ix, nodes, i)
    {
      var step := LinkOne(tr, ix, nodes[i], g);
      if step.Err? {
        return step;
      }
      g := LinkParent(g, ix, nodes[i]).value.0;
      ix := step.value;
      i := i + 1;
    }
    return Ok(ix);
  }

  // ---------------------------------------------------------------------------------
  // resolve (github.go:296-384)

  /** github.go:311-333: the node a local item stands for, or a stored and indexed copy of the item. */
  method FindOrCopy(tr: Tree, ix: Index, g: Goal, ghost a: Arena) returns (ix2: Index, sn: Handle)
    requires tr.Valid() && Good(a, ix) && Reordered(a, tr.Snapshot())
    modifies tr
    ensures tr.Valid() && tr.root == old(tr.root)
    ensures ix2 == Lookup(a, ix, g).1 && sn == Lookup(a, ix, g).2
    ensures Reordered(Lookup(a, ix, g).0, tr.Snapshot())
  {
    var l := g.node.link;
    var found := ByLink(ix, l);
    if found.Some? {
      return ix, found.value;
    }
    ghost var before := tr.Snapshot();
    sn := tr.Alloc(Copy(g));
    StoredReordered(a, before, Copy(g));
    ix2 := ix;
    if l.url != "" {
      ix2 := ix2.(byURL := ix2.byURL[l.url := sn], byID := ix2.byID[l.url := sn]);
    }
    if l.title != "" {
      if Matches(HashRef, l.title) {
        ix2 := ix2.(byNum := ix2.byNum[l.title := sn]);
      }
      ix2 := ix2.(byTitle := ix2.byTitle[l.title := sn]);
    }
  }

  /** github.go:334-351: a node whose link has a url but no title gets a title made from the url. */
  method SetTitle(tr: Tree, org: string, repo: string, sn: Handle, ghost a: Arena, ghost ix: Index)
    requires tr.Valid() && Good(a, ix) && Reordered(a, tr.Snapshot()) && sn < |a.store|
    modifies tr
    ensures tr.Valid() && tr.root == old(tr.root)
    ensures Reordered(Retitle(a, ix, org, repo, sn), tr.Snapshot())
  {
    ghost var before := tr.Snapshot();
    var n := tr.store[sn].(link := SynthLink(org, repo, tr.store[sn].link));
    tr.Put(sn, n);
    ghost var m := a.store[sn].(link := SynthLink(org, repo, a.store[sn].link));
    SameButOrderUpdate(a.store[sn], before.store[sn], m, n);
    PokeReordered(a, before, sn, m, n);
  }

  /** github.go:353-366: the node's parent link must name the node it is listed under. */
  method CheckParent(tr: Tree, root: Handle, sn: Handle) returns (e: Option<Error>)
    requires root < |tr.store| && sn < |tr.store|
    ensures e == ParentConflict(tr.store[sn].parent, tr.store[sn].link, tr.store[root].link)
  {
    var p := tr.store[sn].parent;
    var rl := tr.store[root].link;
    if p.Some? {
      var l1 := p.value;
      if l1.title == rl.title && Matches(HashRef, l1.title) {
        l1 := rl;
      }
      if l1.url != rl.url {
        return Some(IncorrectParent(tr.store[sn].link.title, l1.title, rl.title));
      }
    }
    return None;
  }

  /** github.go:367-381: the node's parent link becomes the root's link, and the first placement wins. */
  method PlaceUnder(tr: Tree, ix: Index, root: Handle, sn: Handle, ghost a: Arena) returns (r: Result<Index, Error>)
    requires tr.Valid() && Good(a, ix) && Reordered(a, tr.Snapshot()) && root < |a.store| && sn < |a.store|
    modifies tr
    ensures tr.Valid() && tr.root == old(tr.root)
    ensures Tracks(r, Place(Adopted(a, ix, root, sn), ix, root, sn), tr.Snapshot())
  {
    ghost var before := tr.Snapshot();
    var n := tr.store[sn].(parent := Some(tr.store[root].link));
    tr.Put(sn, n);
    ghost var m := a.store[sn].(parent := Some(a.store[root].link));
    SameButOrderUpdate(a.store[sn], before.store[sn], m, n);
    PokeReordered(a, before, sn, m, n);
    ghost var a2 := Adopted(a, ix, root, sn);
    if sn !in ix.parents {
      ghost var mid := tr.Snapshot();
      tr.AddChild(root, [sn]);
      AttachReordered(a2, mid, root, [sn]);
      return Ok(ix.(parents := ix.parents[sn := root]));
    } else if ix.parents[sn] != root {
      return Err(UnexpectedRoot(tr.store[sn].link, tr.store[root].link, tr.store[ix.parents[sn]].link));
    }
    return Ok(ix);
  }

  /** github.go:353-381. */
  method Conclude(tr: Tree, ix: Index, root: Handle, sn: Handle, ghost a: Arena) returns (r: Result<Index, Error>)
    requires tr.Valid() && Good(a, ix) && Reordered(a, tr.Snapshot()) && root < |a.store| && sn < |a.store|
    modifies tr
    ensures tr.Valid() && tr.root == old(tr.root)
    ensures Tracks(r, Finish(a, ix, root, sn), tr.Snapshot())
  {
    var e := CheckParent(tr, root, sn);
    if e.Some? {
      return Err(e.value);
    }
    r := PlaceUnder(tr, ix, root, sn, a);
  }

  /** One local item of resolve (github.go:309-382). */
  method ResolveItem(tr: Tree, ix: Index, org: string, repo: string, root: Handle, g: Goal, ghost a: Arena)
    returns (r: Result<Index, Error>)
    requires tr.Valid() && Good(a, ix) && Reordered(a, tr.Snapshot()) && root < |a.store|
    modifies tr
    ensures tr.Valid() && tr.root == old(tr.root)
    ensures Tracks(r, Step(a, ix, org, repo, root, g), tr.Snapshot())
    decreases g, 3
  {
    var ix1, sn := FindOrCopy(tr, ix, g, a);
    ghost var found := Lookup(a, ix, g);
    SetTitle(tr, org, repo, sn, found.0, ix1);
    ghost var a2 := Retitle(found.0, ix1, org, repo, sn);
    var sub := Resolve(tr, ix1, org, repo, sn, g, a2);
    if sub.Err? {
      return sub;
    }
    ghost var done := ResolveAt(a2, ix1, org, repo, sn, g).value;
    r := Conclude(tr, sub.value, root, sn, done.0);
  }

  /** github.go:299-308: the node takes the local node's values where it has none, and its links. */
  method FillNode(tr: Tree, root: Handle, local: Goal, ghost a: Arena, ghost ix: Index)
    requires tr.Valid() && Good(a, ix) && Reordered(a, tr.Snapshot()) && root < |a.store|
    modifies tr
    ensures tr.Valid() && tr.root == old(tr.root)
    ensures Good(Poke(a, root, Fill(a.store[root], local.node)), ix)
    ensures Reordered(Poke(a, root, Fill(a.store[root], local.node)), tr.Snapshot())
  {
    ghost var before := tr.Snapshot();
    assert root < |tr.store| && SameButOrder(a.store[root], before.store[root]);
    hide Good, Reordered, Poke;
    var n := tr.store[root];
    if n.priority.None? {
      n := n.(priority := local.node.priority);
    }
    if n.progress.None? {
      n := n.(progress := local.node.progress);
    }
    if n.desc == "" {
      n := n.(desc := local.node.desc);
    }
    n := n.(links := n.links + local.node.links);
    tr.Put(root, n);
    ghost var f := Fill(a.store[root], local.node);
    SameButOrderUpdate(a.store[root], before.store[root], f, n);
    PokeReordered(a, before, root, f, n);
    PokeKeepsGood(a, ix, root, f);
  }

  /**
   * resolve(root, local) (github.go:297-384): fill the node from the local one, then
   * resolve each local child in turn and sort the node's children after each.
   */
  method Resolve(tr: Tree, ix: Index, org: string, repo: string, root: Handle, local: Goal, ghost a: Arena)
    returns (r: Result<Index, Error>)
    requires tr.Valid() && Good(a, ix) && Reordered(a, tr.Snapshot()) && root < |a.store|
    modifies tr
    ensures tr.Valid() && tr.root == old(tr.root)
    ensures Tracks(r, ResolveAt(a, ix, org, repo, root, local), tr.Snapshot())
    decreases local, 2
  {
    FillNode(tr, root, local, a, ix);
    ghost var g := Poke(a, root, Fill(a.store[root], local.node));
    var ix1 := ix;
    var i := 0;
    while i < |local.node.sub|
      invariant 0 <= i <= |local.node.sub| && tr.Valid() && tr.root == old(tr.root)
      invariant Good(g, ix1) && root < |g.store| && Reordered(g, tr.Snapshot())
      invariant ResolveAt(a, ix, org, repo, root, local) == SubsFrom(g, ix1, org, repo, root, local, i)
    {
      SubsFromStep(g, ix1, org, repo, root, local, i);
      var step := ResolveItem(tr, ix1, org, repo, root, local.node.sub[i], g);
      if step.Err? {
        return step;
      }
      g := Step(g, ix1, org, repo, root, local.node.sub[i]).value.0;
      ix1 := step.value;
      ghost var placed := tr.Snapshot();
      tr.Sort(root);
      ReorderedTrans(g, placed, tr.Snapshot());
      i := i + 1;
    }
    return Ok(ix1);
  }

  // ---------------------------------------------------------------------------------
  // ghRepo.asTree, ghOrg.asTree, Github.asTree and loadOrgTree

  /** The method's error and tree agree with a fold's result up to the order of children. */
  predicate Outcome(err: Option<Error>, spec: Result<Arena, Error>, now: Arena)
  {
    (err.None? <==> spec.Ok?)
    && (err.Some? ==> err.value == spec.error)
    && (spec.Ok? ==> Reordered(spec.value, now))
  }

  /** One issue of the resolve loop (github.go:386-393). */
  method LocalOne(tr: Tree, ix: Index, org: string, repo: string, iss: Issue, nd: Handle, ghost a: Arena)
    returns (r: Result<Index, Error>)
    requires tr.Valid() && Good(a, ix) && Reordered(a, tr.Snapshot()) && nd < |a.store|
    modifies tr
    ensures tr.Valid() && tr.root == old(tr.root)
    ensures Tracks(r, LocalStep(a, ix, org, repo, iss, nd), tr.Snapshot())
  {
    if iss.local.None? {
      return Ok(ix);
    }
    r := Resolve(tr, ix, org, repo, nd, iss.local.value, a);
  }

  /** The resolve loop over the issues (github.go:385-394). */
  method ResolveLocals(tr: Tree, ix0: Index, org: string, repo: string, issues: seq<Issue>, nodes: seq<Handle>, ghost s: Arena)
    returns (r: Result<Index, Error>)
    requires tr.Valid() && Good(s, ix0) && Reordered(s, tr.Snapshot())
    requires |nodes| == |issues| && AllBelow(nodes, |s.store|)
    modifies tr
    ensures tr.Valid() && tr.root == old(tr.root)
    ensures Tracks(r, LocalsFrom(s, ix0, org, repo, issues, nodes, 0), tr.Snapshot())
  {
    var ix := ix0;
    ghost var g := s;
    var i := 0;
    while i < |issues|
      invariant 0 <= i <= |issues| && tr.Valid() && tr.root == old(tr.root)
      invariant Good(g, ix) && AllBelow(nodes, |g.store|) && Reordered(g, tr.Snapshot())
      invariant LocalsFrom(s, ix0, org, repo, issues, nodes, 0) == LocalsFrom(g, ix, org, repo, issues, nodes, i)
    {
      var step := LocalOne(tr, ix, org, repo, issues[i], nodes[i], g);
      if step.Err? {
        return step;
      }
      ghost var next := LocalStep(g, ix, org, repo, issues[i], nodes[i]).value;
      AllBelowGrow(nodes, |g.store|, |next.0.store|);
      g := next.0;
      ix := step.value;
      i := i + 1;
    }
    return Ok(ix);
  }

  /** The orphan loop (github.go:396-402): issues still without a parent link go under `root`. */
  method AttachOrphans(tr: Tree, root: Handle, nodes: seq<Handle>, ghost ix: Index, ghost s: Arena)
    requires tr.Valid() && Good(s, ix) && Reordered(s, tr.Snapshot()) && root < |s.store| && AllBelow(nodes, |s.store|)
    modifies tr
    ensures tr.Valid() && tr.root == old(tr.root)
    ensures Reordered(OrphansUpTo(s, ix, root, nodes, |nodes|), tr.Snapshot())
  {
    var i := 0;
    while i < |nodes|
      invariant 0 <= i <= |nodes| && tr.Valid() && tr.root == old(tr.root)
      invariant OrphansDone(s, ix, root, nodes, i, tr.Snapshot())
    {
      OrphanOne(tr, root, nodes, i, ix, s);
      i := i + 1;
    }
  }

  /** After `i` turns of the orphan loop the tree agrees, up to order, with the arena those turns make. */
  ghost predicate OrphansDone(s: Arena, ix: Index, root: Handle, nodes: seq<Handle>, i: nat, b: Arena)
    requires Good(s, ix) && root < |s.store| && AllBelow(nodes, |s.store|) && i <= |nodes|
  {
    Reordered(OrphansUpTo(s, ix, root, nodes, i), b)
  }

  /** Turn `i` of the orphan loop (github.go:397-401): `nodes[i]` goes under `root` unless it has a parent. */
  method OrphanOne(tr: Tree, root: Handle, nodes: seq<Handle>, i: nat, ghost ix: Index, ghost s: Arena)
    requires Good(s, ix) && root < |s.store| && AllBelow(nodes, |s.store|) && i < |nodes|
    requires tr.Valid() && OrphansDone(s, ix, root, nodes, i, tr.Snapshot())
    modifies tr
    ensures tr.Valid() && tr.root == old(tr.root)
    ensures OrphansDone(s, ix, root, nodes, i + 1, tr.Snapshot())
  {
    OrphanStep(s, ix, root, nodes, i);
    ghost var g := OrphansUpTo(s, ix, root, nodes, i);
    ghost var before := tr.Snapshot();
    var h := nodes[i];
    assert tr.store[h].parent == g.store[h].parent by {
      assert SameButOrder(g.store[h], before.store[h]);
    }
    if tr.store[h].parent.None? {
      tr.AddChild(root, [h]);
      AttachReordered(g, before, root, [h]);
    }
  }

  /** ghRepo.asTree (github.go:232-404). */
  method RepoAsTree(tr: Tree, root: Handle, org: string, repo: Repo, ghost s: Arena) returns (err: Option<Error>)
    requires tr.Valid() && Inv(s) && Reordered(s, tr.Snapshot()) && root < |s.store|
    modifies tr
    ensures tr.Valid() && tr.root == old(tr.root)
    ensures err.None? <==> RepoTree(s, root, org, repo).Ok?
    ensures err.Some? ==> err.value == RepoTree(s, root, org, repo).error
    ensures err.None? ==> Reordered(RepoTree(s, root, org, repo).value.0, tr.Snapshot())
  {
    var ix, nodes := IndexIssues(tr, repo.issues, s);
    ghost var idx := IndexUpTo(s, repo.issues);
    var linked := LinkParents(tr, ix, nodes, idx.0);
    if linked.Err? {
      return Some(linked.error);
    }
    ghost var l := LinkFrom(idx.0, idx.1, idx.2, 0).value;
    var done := ResolveLocals(tr, linked.value, org, repo.name, repo.issues, nodes, l.0);
    if done.Err? {
      return Some(done.error);
    }
    ghost var d := LocalsFrom(l.0, l.1, org, repo.name, repo.issues, idx.2, 0).value;
    AllBelowGrow(nodes, |idx.0.store|, |d.0.store|);
    AttachOrphans(tr, root, nodes, d.1, d.0);
    return None;
  }

  /** One repository of ghOrg.asTree (github.go:215-227). */
  method RepoOne(tr: Tree, root: Handle, org: string, repo: Repo, ghost a: Arena) returns (err: Option<Error>)
    requires tr.Valid() && Inv(a) && Reordered(a, tr.Snapshot()) && root < |a.store|
    modifies tr
    ensures tr.Valid() && tr.root == old(tr.root)
    ensures Outcome(err, RepoStep(a, root, org, repo), tr.Snapshot())
  {
    hide RepoTree;
    var nd := NewNodeAs(tr, PageRecord(repo.name, RepoURL(org, repo.name)), a);
    ghost var up := PageNode(a, repo.name, RepoURL(org, repo.name));
    err := RepoAsTree(tr, nd, org, repo, up.0);
    if err.Some? {
      return;
    }
    AttachAs(tr, root, nd, RepoTree(up.0, up.1, org, repo).value.0);
  }

  /** Appends `nd` to the children of `root`, as Attach does on a tree that agrees up to order. */
  method AttachAs(tr: Tree, root: Handle, nd: Handle, ghost built: Arena)
    requires tr.Valid() && Inv(built) && Reordered(built, tr.Snapshot()) && root < |built.store| && nd < |built.store|
    modifies tr
    ensures tr.Valid() && tr.root == old(tr.root)
    ensures Reordered(Attach(built, root, [nd]), tr.Snapshot())
  {
    ghost var before := tr.Snapshot();
    tr.AddChild(root, [nd]);
    AttachReordered(built, before, root, [nd]);
  }

  /** ghOrg.asTree (github.go:213-230): each repository under `root`, then the children sorted. */
  method OrgAsTree(tr: Tree, root: Handle, org: Org, ghost s: Arena) returns (err: Option<Error>)
    requires tr.Valid() && Inv(s) && Reordered(s, tr.Snapshot()) && root < |s.store|
    modifies tr
    ensures tr.Valid() && tr.root == old(tr.root)
    ensures Outcome(err, ReposFrom(s, root, org, 0), tr.Snapshot())
  {
    hide RepoStep;
    ghost var g := s;
    var i := 0;
    while i < |org.repos|
      invariant 0 <= i <= |org.repos| && tr.Valid() && tr.root == old(tr.root)
      invariant Inv(g) && root < |g.store| && Reordered(g, tr.Snapshot())
      invariant ReposFrom(s, root, org, 0) == ReposFrom(g, root, org, i)
    {
      ReposFromStep(g, root, org, i);
      err := RepoOne(tr, root, org.name, org.repos[i], g);
      if err.Some? {
        return;
      }
      g := RepoStep(g, root, org.name, org.repos[i]).value;
      i := i + 1;
    }
    SortAs(tr, root, g);
    return None;
  }

  /** The sort.Slice of github.go:209 and 229: the children of `root` in some order. */
  method SortAs(tr: Tree, root: Handle, ghost g: Arena)
    requires tr.Valid() && Reordered(g, tr.Snapshot()) && root < |g.store|
    modifies tr
    ensures tr.Valid() && tr.root == old(tr.root)
    ensures Reordered(g, tr.Snapshot())
  {
    ghost var before := tr.Snapshot();
    tr.Sort(root);
    ReorderedTrans(g, before, tr.Snapshot());
  }

  /** One organisation of Github.asTree (github.go:192-208). */
  method OrgOne(tr: Tree, root: Handle, org: Org, ghost a: Arena) returns (err: Option<Error>)
    requires tr.Valid() && Inv(a) && Reordered(a, tr.Snapshot()) && root < |a.store|
    modifies tr
    ensures tr.Valid() && tr.root == old(tr.root)
    ensures Outcome(err, OrgStep(a, root, org), tr.Snapshot())
  {
    hide ReposFrom;
    var nd := NewNodeAs(tr, PageRecord(org.name, OrgURL(org.name)), a);
    ghost var up := PageNode(a, org.name, OrgURL(org.name));
    err := OrgAsTree(tr, nd, org, up.0);
    if err.Some? {
      return;
    }
    AttachContributed(tr, root, nd, ReposFrom(up.0, up.1, org, 0).value);
  }

  /** github.go:203-207: an organisation node with a single child contributes that child, otherwise itself. */
  method AttachContributed(tr: Tree, root: Handle, nd: Handle, ghost built: Arena)
    requires tr.Valid() && Inv(built) && Reordered(built, tr.Snapshot()) && root < |built.store| && nd < |built.store|
    modifies tr
    ensures tr.Valid() && tr.root == old(tr.root)
    ensures Reordered(Attach(built, root, [Contributed(built, nd)]), tr.Snapshot())
  {
    ghost var before := tr.Snapshot();
    assert SameButOrder(built.store[nd], tr.store[nd]) by {
      assert Reordered(built, tr.Snapshot()) && nd < |built.store|;
    }
    assert |built.store[nd].sub| == |tr.store[nd].sub| by {
      assert |multiset(built.store[nd].sub)| == |multiset(tr.store[nd].sub)|;
    }
    if |tr.store[nd].sub| == 1 {
      SingletonOrder(built.store[nd].sub, before.store[nd].sub);
      tr.AddChild(root, [tr.store[nd].sub[0]]);
    } else {
      tr.AddChild(root, [nd]);
    }
    AttachReordered(built, before, root, [Contributed(built, nd)]);
  }

  /** Github.asTree (github.go:190-211): each organisation under `root`, then the children sorted. */
  method GithubAsTree(tr: Tree, root: Handle, orgs: seq<Org>, ghost s: Arena) returns (err: Option<Error>)
    requires tr.Valid() && Inv(s) && Reordered(s, tr.Snapshot()) && root < |s.store|
    modifies tr
    ensures tr.Valid() && tr.root == old(tr.root)
    ensures Outcome(err, OrgsFrom(s, root, orgs, 0), tr.Snapshot())
  {
    hide OrgStep;
    ghost var g := s;
    var i := 0;
    while i < |orgs|
      invariant 0 <= i <= |orgs| && tr.Valid() && tr.root == old(tr.root)
      invariant Inv(g) && root < |g.store| && Reordered(g, tr.Snapshot())
      invariant OrgsFrom(s, root, orgs, 0) == OrgsFrom(g, root, orgs, i)
    {
      OrgsFromStep(g, root, orgs, i);
      err := OrgOne(tr, root, orgs[i], g);
      if err.Some? {
        return;
      }
      g := OrgStep(g, root, orgs[i]).value;
      i := i + 1;
    }
    SortAs(tr, root, g);
    return None;
  }

  /**
   * The tree-building end of loadOrgTree (github.go:152-158): build under the current
   * root, and when that root ends up with exactly one child, make the child the root.
   */
  method LoadOrgTree(tr: Tree, orgs: seq<Org>, ghost s: Arena) returns (err: Option<Error>)
    requires tr.Valid() && Inv(s) && Reordered(s, tr.Snapshot())
    modifies tr
    ensures tr.Valid()
    ensures Outcome(err, OrgsFrom(s, old(tr.root), orgs, 0), tr.Snapshot())
    ensures err.None? ==>
      var b := OrgsFrom(s, old(tr.root), orgs, 0).value;
      tr.root == if |b.store[old(tr.root)].sub| == 1 then b.store[old(tr.root)].sub[0] else old(tr.root)
  {
    var nd := tr.root;
    err := GithubAsTree(tr, nd, orgs, s);
    if err.Some? {
      return;
    }
    ghost var b := OrgsFrom(s, nd, orgs, 0).value;
    assert SameButOrder(b.store[nd], tr.store[nd]) by {
      assert Reordered(b, tr.Snapshot()) && nd < |b.store|;
    }
    assert |b.store[nd].sub| == |tr.store[nd].sub| by {
      assert |multiset(b.store[nd].sub)| == |multiset(tr.store[nd].sub)|;
    }
    if |tr.store[nd].sub| == 1 {
      SingletonOrder(b.store[nd].sub, tr.store[nd].sub);
      tr.root := tr.store[nd].sub[0];
      assert tr.root == b.store[nd].sub[0];
    }
  }
}

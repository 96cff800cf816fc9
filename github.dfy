/**
 * The issue-tree resolver of github.go: every issue of a repository becomes a node of
 * the shared tree, issues are put under the parents their bodies declare, the checklist
 * tree parsed from each issue body is reconciled against the issues, and the remaining
 * issues hang under the repository's node. Repositories hang under their organisation,
 * organisations under the top root.
 *
 * The lookup maps of ghRepo.asTree are local to one call and are threaded through the
 * model as an `Index` value. The GitHub API, the cache and the parsing of issue bodies
 * are outside the model: issues come with their fields and their parsed body tree.
 */
module Github {

  import opened Types
  import opened Text
  import opened Scan
  import opened Nodes

  /** An issue as ghRepo.asTree reads it: API url (the id), page url, number, title and parsed body. */
  datatype Issue = Issue(id: string, url: string, number: int, title: string, local: Option<Goal>)

  /** A repository with its issues, in the order the loops visit them. */
  datatype Repo = Repo(name: string, issues: seq<Issue>)

  /** An organisation with its repositories. */
  datatype Org = Org(name: string, repos: seq<Repo>)

  /** The errors ghRepo.asTree returns. */
  datatype Error =
    | CannotFindParent(parent: Link)                                   // github.go:288
    | IncorrectParent(child: string, declared: string, local: string)   // github.go:362-363
    | UnexpectedRoot(node: Link, expected: Link, got: Link)            // github.go:375-376

  // ---------------------------------------------------------------------------------
  // Splitting a URL (net/url.Parse, as far as the title synthesis uses it)

  predicate IsLetter(c: char)
  {
    'a' <= c <= 'z' || 'A' <= c <= 'Z'
  }

  /** The position of the `:` that ends a scheme `[A-Za-z][A-Za-z0-9+.-]*`, if `u` starts with one. */
  function SchemeColon(u: string, i: nat): (r: Option<nat>)
    requires i <= |u|
    ensures r.Some? ==> 0 < r.value < |u| && u[r.value] == ':'
    decreases |u| - i
  {
    if i == |u| then None
    else if IsLetter(u[i]) then SchemeColon(u, i + 1)
    else if i > 0 && (IsDigit(u[i]) || u[i] == '+' || u[i] == '-' || u[i] == '.') then SchemeColon(u, i + 1)
    else if i > 0 && u[i] == ':' then Some(i)
    else None
  }

  /** The part of `s` before the first `c` (all of `s` when there is none). */
  function Before(s: string, c: char): (r: string)
    ensures |r| <= |s| && r == s[..|r|] && c !in r
    ensures |r| < |s| ==> s[|r|] == c
  {
    if s == [] || s[0] == c then [] else [s[0]] + Before(s[1..], c)
  }

  /** The part of `s` after the last `c` (all of `s` when there is none). */
  function AfterLast(s: string, c: char): (r: string)
    ensures |r| <= |s| && r == s[|s| - |r|..] && c !in r
  {
    if s == [] || s[|s| - 1] == c then [] else AfterLast(s[..|s| - 1], c) + [s[|s| - 1]]
  }

  /**
   * The host and path url.Parse reports (github.go:337): the fragment and the query are
   * cut off, an authority follows `//`, and the host is the authority after its last `@`.
   * A URL without an authority has an empty host.
   */
  function HostPath(u: string): (string, string)
  {
    var v := Before(u, '#');
    var rest := match SchemeColon(v, 0) case Some(k) => v[k + 1..] case None => v;
    var hasScheme := SchemeColon(v, 0).Some?;
    var rest := Before(rest, '?');
    if HasPrefix(rest, "//") && (hasScheme || !HasPrefix(rest, "///")) then
      var auth := Before(rest[2..], '/');
      (AfterLast(auth, '@'), rest[2 + |auth|..])
    else ("", rest)
  }

  /** The path segments github.go:338 splits off: the path without surrounding slashes, cut at each `/`. */
  function PathParts(path: string): (r: seq<string>)
    ensures |r| >= 1
  {
    Split(TrimChar(path, '/'), '/')
  }

  // ---------------------------------------------------------------------------------
  // Title synthesis (github.go:334-351)

  /** `#<n>` for an issue of the repository being resolved, `<org>/<repo>#<n>` for any other. */
  function RefTitle(org: string, repo: string, sub: seq<string>): string
    requires |sub| >= 4
  {
    if sub[0] == org && sub[1] == repo then "#" + sub[3] else sub[0] + "/" + sub[1] + "#" + sub[3]
  }

  /** What github.go:339-349 does with the path segments: a title, no title (logged), or a panic. */
  datatype Titling = Titled(title: string) | Untitled | IndexPanic

  /**
   * github.go:339 as written: `len(sub) == 4 && sub[2] == "issues" || sub[2] == "pull"`,
   * where `&&` binds tighter than `||`, so `sub[2]` and `sub[3]` are read without a
   * length check when the first conjunct fails.
   */
  function TitleAsWritten(org: string, repo: string, sub: seq<string>): Titling
  {
    if |sub| == 4 && sub[2] == "issues" then Titled(RefTitle(org, repo, sub))
    else if |sub| < 3 then IndexPanic
    else if sub[2] != "pull" then Untitled
    else if |sub| < 4 then IndexPanic
    else Titled(RefTitle(org, repo, sub))
  }

  /**
   * github.go:339 as intended: a title exactly for `<org>/<repo>/issues/<n>` and
   * `<org>/<repo>/pull/<n>`.
   */
  function IssueTitle(org: string, repo: string, sub: seq<string>): (r: Option<string>)
    ensures r.Some? <==> |sub| == 4 && (sub[2] == "issues" || sub[2] == "pull")
    ensures r.Some? ==> r.value == RefTitle(org, repo, sub)
    ensures r.Some? && sub[0] == org && sub[1] == repo ==> r.value == "#" + sub[3]
  {
    if |sub| == 4 && (sub[2] == "issues" || sub[2] == "pull") then Some(RefTitle(org, repo, sub))
    else None
  }

  /** On four segments, where the code as written cannot fail, it agrees with the intended test. */
  lemma TitleAsWrittenOnFour(org: string, repo: string, sub: seq<string>)
    requires |sub| == 4
    ensures TitleAsWritten(org, repo, sub) == match IssueTitle(org, repo, sub) case Some(t) => Titled(t) case None => Untitled
  {
  }

  /**
   * The inputs that expose the precedence slip: one or two segments panic on `sub[2]`,
   * `<org>/<repo>/pull` panics on `sub[3]`, and a longer pull-request path such as
   * `<org>/<repo>/pull/5/files` gets a title although it is not a pull request's page.
   */
  lemma TitleAsWrittenCounterexamples(org: string, repo: string)
    ensures TitleAsWritten(org, repo, ["octo"]) == IndexPanic
    ensures TitleAsWritten(org, repo, ["octo", "app", "pull"]) == IndexPanic
    ensures TitleAsWritten(org, repo, ["octo", "app", "pull", "5", "files"]).Titled?
    ensures IssueTitle(org, repo, ["octo", "app", "pull", "5", "files"]).None?
    ensures IssueTitle(org, repo, ["octo"]).None? && IssueTitle(org, repo, ["octo", "app", "pull"]).None?
  {
  }

  /**
   * The link of a node after github.go:334-351: a link with a URL but no title gets the
   * synthesised title when its URL is a github.com issue or pull request page.
   */
  function SynthLink(org: string, repo: string, l: Link): (r: Link)
    ensures r.url == l.url
    ensures r.title != l.title ==> l.title == "" && l.url != ""
  {
    if l.title == "" && l.url != "" then
      var hp := HostPath(l.url);
      if hp.0 == "github.com" then
        match IssueTitle(org, repo, PathParts(hp.1))
        case Some(t) => l.(title := t)
        case None => l
      else l
    else l
  }

  // ---------------------------------------------------------------------------------
  // The lookup maps of ghRepo.asTree (github.go:233-237, 269-278, 281)

  /** Nodes by short ref, by id, by page url and by title, and the parent each placed node was recorded under. */
  datatype Index = Index(
    byNum: map<string, Handle>,
    byID: map<string, Handle>,
    byURL: map<string, Handle>,
    byTitle: map<string, Handle>,
    parents: map<Handle, Handle>)

  const NoIndex: Index := Index(map[], map[], map[], map[], map[])

  /**
   * The maps mention stored nodes only, and every recorded parent does have the node
   * among its children.
   */
  predicate Good(a: Arena, ix: Index)
  {
    Inv(a)
    && Below(ix.byNum, |a.store|) && Below(ix.byID, |a.store|)
    && Below(ix.byURL, |a.store|) && Below(ix.byTitle, |a.store|)
    && (forall x :: x in ix.parents ==> x < |a.store| && ix.parents[x] < |a.store|)
    && (forall x :: x in ix.parents ==> x in a.store[ix.parents[x]].sub)
  }

  /** byLink (github.go:269-278): by the short ref in the title first, then by id, then by page url. */
  function ByLink(ix: Index, l: Link): (r: Option<Handle>)
    ensures r.None? <==> l.title !in ix.byNum && l.url !in ix.byID && l.url !in ix.byURL
    ensures l.title in ix.byNum ==> r == Some(ix.byNum[l.title])
    ensures l.title !in ix.byNum && l.url in ix.byID ==> r == Some(ix.byID[l.url])
  {
    if l.title in ix.byNum then Some(ix.byNum[l.title])
    else if l.url in ix.byID then Some(ix.byID[l.url])
    else if l.url in ix.byURL then Some(ix.byURL[l.url])
    else None
  }

  lemma ByLinkStored(a: Arena, ix: Index, l: Link)
    requires Good(a, ix)
    ensures ByLink(ix, l).Some? ==> ByLink(ix, l).value < |a.store|
  {
  }

  /** AddChild keeps the maps good, and the new children are there. */
  lemma AttachKeepsGood(a: Arena, ix: Index, h: Handle, arr: seq<Handle>)
    requires Good(a, ix) && h < |a.store| && forall i :: 0 <= i < |arr| ==> arr[i] < |a.store|
    ensures Good(Attach(a, h, arr), ix) && |Attach(a, h, arr).store| == |a.store|
    ensures forall x :: x in arr ==> x in Attach(a, h, arr).store[h].sub
    ensures forall x :: 0 <= x < |a.store| ==> Attach(a, h, arr).store[x].parent == a.store[x].parent
    ensures forall x :: 0 <= x < |a.store| ==> Attach(a, h, arr).store[x].link == a.store[x].link
  {
    AttachKeepsInv(a, h, arr);
    AddChildrenSpec(a.store[h].sub, arr);
  }

  /** An update that keeps a node's id, url and children keeps the maps good. */
  lemma PokeKeepsGood(a: Arena, ix: Index, h: Handle, n: Record)
    requires Good(a, ix) && h < |a.store|
    requires n.id == a.store[h].id && n.link.url == a.store[h].link.url && n.sub == a.store[h].sub
    ensures Good(Poke(a, h, n), ix)
  {
    PokeKeepsInv(a, h, n);
  }

  lemma StoredKeepsGood(a: Arena, ix: Index, n: Record)
    requires Good(a, ix) && RecordIn(n, |a.store|)
    ensures Good(Stored(a, n), ix)
  {
    StoredKeepsInv(a, n);
  }

  // ---------------------------------------------------------------------------------
  // Indexing the issues (github.go:240-267)

  /** The short ref of an issue number: `#<n>`. */
  function ShortRef(n: int): string
  {
    "#" + IntString(n)
  }

  /** The node an issue starts as: its id, title and a link from its short ref to its page. */
  function IssueRecord(iss: Issue): Record
  {
    Blank().(id := iss.id, title := iss.title, link := Link(ShortRef(iss.number), iss.url))
  }

  /** The four index entries of an issue's node (github.go:253-256). */
  function Register(ix: Index, iss: Issue, nd: Handle): Index
  {
    ix.(byID := ix.byID[iss.id := nd], byURL := ix.byURL[iss.url := nd],
        byNum := ix.byNum[ShortRef(iss.number) := nd], byTitle := ix.byTitle[iss.title := nd])
  }

  lemma RegisterKeepsGood(a: Arena, ix: Index, iss: Issue, nd: Handle)
    requires Good(a, ix) && nd < |a.store|
    ensures Good(a, Register(ix, iss, nd))
  {
  }

  /** Before any parent is recorded, NewNode keeps the maps good. */
  lemma UpsertKeepsGood(a: Arena, ix: Index, nd: Record)
    requires Good(a, ix) && ix.parents == map[] && RecordIn(nd, |a.store|)
    ensures Good(Upsert(a, nd).0, ix)
    ensures Upsert(a, nd).1 < |Upsert(a, nd).0.store| && |a.store| <= |Upsert(a, nd).0.store|
  {
    UpsertKeepsInv(a, nd);
  }

  /**
   * One issue: its node is upserted and indexed under its id, page url, short ref and
   * title, and takes the parent link its body declares unless it has one already.
   */
  function IndexIssue(a: Arena, ix: Index, iss: Issue): (r: (Arena, Index, Handle))
    requires Good(a, ix) && ix.parents == map[]
    ensures Good(r.0, r.1) && r.2 < |r.0.store| && |a.store| <= |r.0.store| && r.1.parents == map[]
    ensures r.1 == Register(ix, iss, r.2)
    ensures ByLink(r.1, IssueRecord(iss).link) == Some(r.2)
  {
    UpsertKeepsGood(a, ix, IssueRecord(iss));
    var (a1, nd) := Upsert(a, IssueRecord(iss));
    RegisterKeepsGood(a1, ix, iss, nd);
    var ix1 := Register(ix, iss, nd);
    match iss.local
    case Some(l) =>
      if a1.store[nd].parent.None? then
        PokeKeepsGood(a1, ix1, nd, a1.store[nd].(parent := l.node.parent));
        (Poke(a1, nd, a1.store[nd].(parent := l.node.parent)), ix1, nd)
      else (a1, ix1, nd)
    case None => (a1, ix1, nd)
  }

  /** IndexIssue taken apart: NewNode, then the local parent set on a node that has none. */
  lemma IndexIssueUnfold(a: Arena, ix: Index, iss: Issue)
    requires Good(a, ix) && ix.parents == map[]
    ensures var up := Upsert(a, IssueRecord(iss));
      && Inv(up.0) && up.1 < |up.0.store|
      && IndexIssue(a, ix, iss).1 == Register(ix, iss, up.1) && IndexIssue(a, ix, iss).2 == up.1
      && IndexIssue(a, ix, iss).0
         == if iss.local.Some? && up.0.store[up.1].parent.None?
            then Poke(up.0, up.1, up.0.store[up.1].(parent := iss.local.value.node.parent))
            else up.0
  {
    UpsertKeepsGood(a, ix, IssueRecord(iss));
  }

  /** Every handle of `hs` is below `n`. */
  predicate AllBelow(hs: seq<Handle>, n: nat)
  {
    forall k :: 0 <= k < |hs| ==> hs[k] < n
  }

  lemma AllBelowSnoc(hs: seq<Handle>, h: Handle, n: nat, m: nat)
    requires AllBelow(hs, n) && n <= m && h < m
    ensures AllBelow(hs + [h], m)
  {
  }

  /** The indexing loop over the issues, as a fold: the state, the maps and each issue's node. */
  function IndexUpTo(a: Arena, issues: seq<Issue>): (r: (Arena, Index, seq<Handle>))
    requires Inv(a)
    ensures Good(r.0, r.1) && r.1.parents == map[] && |a.store| <= |r.0.store|
    ensures |r.2| == |issues| && AllBelow(r.2, |r.0.store|)
    decreases |issues|
  {
    if issues == [] then (a, NoIndex, [])
    else
      var prev := IndexUpTo(a, issues[..|issues| - 1]);
      var next := IndexIssue(prev.0, prev.1, issues[|issues| - 1]);
      AllBelowSnoc(prev.2, next.2, |prev.0.store|, |next.0.store|);
      (next.0, next.1, prev.2 + [next.2])
  }

  /** The fold over one more issue is one more IndexIssue step. */
  lemma IndexUpToStep(a: Arena, issues: seq<Issue>, i: nat)
    requires Inv(a) && i < |issues|
    ensures var g := IndexUpTo(a, issues[..i]);
      var next := IndexIssue(g.0, g.1, issues[i]);
      IndexUpTo(a, issues[..i + 1]) == (next.0, next.1, g.2 + [next.2])
  {
    assert issues[..i + 1][..i] == issues[..i];
  }

  // ---------------------------------------------------------------------------------
  // Declared parents (github.go:280-294)

  /**
   * One issue's declared parent: the issue fails with "cannot find parent" when no map
   * knows the link, and otherwise becomes a child of the node found and is recorded
   * under it.
   */
  function LinkParent(a: Arena, ix: Index, nd: Handle): (r: Result<(Arena, Index), Error>)
    requires Good(a, ix) && nd < |a.store|
    ensures r.Err? <==> a.store[nd].parent.Some? && ByLink(ix, a.store[nd].parent.value).None?
    ensures r.Err? ==> r.error == CannotFindParent(a.store[nd].parent.value)
    ensures r.Ok? ==> Good(r.value.0, r.value.1) && |r.value.0.store| == |a.store|
    ensures r.Ok? && a.store[nd].parent.Some? ==>
      var par := ByLink(ix, a.store[nd].parent.value).value;
      r.value.1.parents == ix.parents[nd := par] && nd in r.value.0.store[par].sub
    ensures r.Ok? && a.store[nd].parent.None? ==> r.value == (a, ix)
  {
    match a.store[nd].parent
    case None => Ok((a, ix))
    case Some(p) =>
      match ByLink(ix, p)
      case None => Err(CannotFindParent(p))
      case Some(par) =>
        AttachKeepsGood(a, ix, par, [nd]);
        var a1 := Attach(a, par, [nd]);
        assert nd in a1.store[par].sub;
        Ok((a1, ix.(parents := ix.parents[nd := par])))
  }

  /** The parent loop (github.go:281-294) from the `i`-th issue node on, stopping at the first error. */
  function LinkFrom(a: Arena, ix: Index, nodes: seq<Handle>, i: nat): (r: Result<(Arena, Index), Error>)
    requires Good(a, ix) && i <= |nodes| && AllBelow(nodes, |a.store|)
    ensures r.Ok? ==> Good(r.value.0, r.value.1) && |r.value.0.store| == |a.store|
    decreases |nodes| - i
  {
    if i == |nodes| then Ok((a, ix))
    else
      match LinkParent(a, ix, nodes[i])
      case Err(e) => Err(e)
      case Ok(next) => LinkFrom(next.0, next.1, nodes, i + 1)
  }

  // ---------------------------------------------------------------------------------
  // Reconciling an issue's local tree (resolve, github.go:296-384)

  /**
   * github.go:299-308: the node keeps its own priority, progress and description, takes
   * the local node's where it has none, and gains the local node's links.
   */
  function Fill(n: Record, local: Node<Goal>): Record
  {
    n.(priority := if n.priority.None? then local.priority else n.priority,
       progress := if n.progress.None? then local.progress else n.progress,
       desc := if n.desc == "" then local.desc else n.desc,
       links := n.links + local.links)
  }

  /** Filling never overwrites a value the node has, never drops a link, and touches nothing else. */
  lemma FillFirstWriterWins(n: Record, local: Node<Goal>)
    ensures var r := Fill(n, local);
      && (n.priority.Some? ==> r.priority == n.priority) && (n.priority.None? ==> r.priority == local.priority)
      && (n.progress.Some? ==> r.progress == n.progress) && (n.progress.None? ==> r.progress == local.progress)
      && (n.desc != "" ==> r.desc == n.desc) && (n.desc == "" ==> r.desc == local.desc)
      && r.links[..|n.links|] == n.links && r.links[|n.links|..] == local.links
      && r.(priority := n.priority, progress := n.progress, desc := n.desc, links := n.links) == n
  {
  }

  /** The copy github.go:316-318 makes of an unmatched local item: every field but the children. */
  function Copy(g: Goal): (r: Record)
    ensures r.sub == [] && r.link == g.node.link
  {
    Node(g.node.id, g.node.title, g.node.desc, g.node.link, g.node.links,
         g.node.priority, g.node.progress, [], g.node.parent)
  }

  /**
   * github.go:320-331: the copy is indexed by its link's url in the url and id maps, by
   * its link's title in the title map, and in the short-ref map when that title holds a
   * hash reference.
   */
  function Adopt(ix: Index, l: Link, h: Handle): Index
  {
    var ix1 := if l.url != "" then ix.(byURL := ix.byURL[l.url := h], byID := ix.byID[l.url := h]) else ix;
    if l.title != "" then
      ix1.(byNum := if Matches(HashRef, l.title) then ix1.byNum[l.title := h] else ix1.byNum,
           byTitle := ix1.byTitle[l.title := h])
    else ix1
  }

  /**
   * An adopted copy is found again by its own link exactly when that link has a url or a
   * title with a hash reference; a later item with the same title-only link is copied again.
   */
  lemma AdoptFindsAgain(ix: Index, l: Link, h: Handle)
    requires ByLink(ix, l).None?
    ensures ByLink(Adopt(ix, l, h), l) == Some(h) <==> l.url != "" || (l.title != "" && Matches(HashRef, l.title))
    ensures ByLink(Adopt(ix, l, h), l).None? <==> l.url == "" && !(l.title != "" && Matches(HashRef, l.title))
  {
  }

  lemma AdoptKeepsGood(a: Arena, ix: Index, l: Link, h: Handle)
    requires Good(a, ix) && h < |a.store|
    ensures Good(a, Adopt(ix, l, h)) && Adopt(ix, l, h).parents == ix.parents
  {
    var n := |a.store|;
    var ix1 := if l.url != "" then ix.(byURL := ix.byURL[l.url := h], byID := ix.byID[l.url := h]) else ix;
    assert Below(ix1.byURL, n) && Below(ix1.byID, n) by {
      BelowUpdate(ix.byURL, l.url, h, n);
      BelowUpdate(ix.byID, l.url, h, n);
    }
    BelowUpdate(ix1.byNum, l.title, h, n);
    BelowUpdate(ix1.byTitle, l.title, h, n);
  }

  predicate Below(m: map<string, Handle>, n: nat)
  {
    forall k :: k in m ==> m[k] < n
  }

  lemma BelowUpdate(m: map<string, Handle>, k: string, h: Handle, n: nat)
    requires Below(m, n) && h < n
    ensures Below(m[k := h], n)
  {
  }

  /** github.go:311-333: the node a local item stands for, made from a copy when no map knows its link. */
  function Lookup(a: Arena, ix: Index, g: Goal): (r: (Arena, Index, Handle))
    requires Good(a, ix)
    ensures Good(r.0, r.1) && r.2 < |r.0.store| && |a.store| <= |r.0.store| && r.1.parents == ix.parents
  {
    match ByLink(ix, g.node.link)
    case Some(h) => (a, ix, h)
    case None =>
      StoredKeepsGood(a, ix, Copy(g));
      AdoptKeepsGood(Stored(a, Copy(g)), ix, g.node.link, |a.store|);
      (Stored(a, Copy(g)), Adopt(ix, g.node.link, |a.store|), |a.store|)
  }

  /** github.go:334-351 on the node: its link gets the synthesised title, its url is untouched. */
  function Retitle(a: Arena, ix: Index, org: string, repo: string, h: Handle): (r: Arena)
    requires Good(a, ix) && h < |a.store|
    ensures Good(r, ix) && |r.store| == |a.store|
  {
    var n := a.store[h].(link := SynthLink(org, repo, a.store[h].link));
    PokeKeepsGood(a, ix, h, n);
    Poke(a, h, n)
  }

  /**
   * github.go:353-366: a parent link the node already has must name the node it is listed
   * under: the same url, or the same title when that title is a hash reference.
   */
  function ParentConflict(declared: Option<Link>, child: Link, under: Link): (r: Option<Error>)
    ensures r.Some? <==> (declared.Some? && declared.value.url != under.url
                          && !(declared.value.title == under.title && Matches(HashRef, declared.value.title)))
  {
    match declared
    case None => None
    case Some(l1) =>
      var l := if l1.title == under.title && Matches(HashRef, l1.title) then under else l1;
      if l.url != under.url then Some(IncorrectParent(child.title, l.title, under.title)) else None
  }

  /**
   * github.go:367-381: the first node an item is placed under keeps it; placing it under
   * another node fails, placing it under the same one again changes nothing.
   */
  function Place(a: Arena, ix: Index, root: Handle, sn: Handle): (r: Result<(Arena, Index), Error>)
    requires Good(a, ix) && root < |a.store| && sn < |a.store|
    ensures r.Err? <==> sn in ix.parents && ix.parents[sn] != root
    ensures r.Err? ==> r.error == UnexpectedRoot(a.store[sn].link, a.store[root].link, a.store[ix.parents[sn]].link)
    ensures r.Ok? ==> Good(r.value.0, r.value.1) && |r.value.0.store| == |a.store|
    ensures r.Ok? ==> r.value.1.parents == ix.parents[sn := root] && sn in r.value.0.store[root].sub
    ensures r.Ok? ==> forall x :: 0 <= x < |a.store| ==> r.value.0.store[x].parent == a.store[x].parent
    ensures r.Ok? ==> forall x :: 0 <= x < |a.store| ==> r.value.0.store[x].link == a.store[x].link
    ensures r.Ok? && sn in ix.parents ==> r.value == (a, ix)
  {
    if sn !in ix.parents then
      AttachKeepsGood(a, ix, root, [sn]);
      Ok((Attach(a, root, [sn]), ix.(parents := ix.parents[sn := root])))
    else if ix.parents[sn] != root then
      Err(UnexpectedRoot(a.store[sn].link, a.store[root].link, a.store[ix.parents[sn]].link))
    else Ok((a, ix))
  }

  /** The node's parent link becomes the link of the node it is listed under (github.go:367-368). */
  function Adopted(a: Arena, ix: Index, root: Handle, sn: Handle): (r: Arena)
    requires Good(a, ix) && root < |a.store| && sn < |a.store|
    ensures Good(r, ix) && |r.store| == |a.store| && r.store[sn].parent == Some(a.store[root].link)
    ensures forall x :: 0 <= x < |a.store| ==> r.store[x].link == a.store[x].link
  {
    var n := a.store[sn].(parent := Some(a.store[root].link));
    PokeKeepsGood(a, ix, sn, n);
    Poke(a, sn, n)
  }

  /**
   * One local item listed under `root` (github.go:309-382): find or copy its node, give it
   * a title, reconcile the item's own subtree, check its parent link, and place it.
   */
  function Step(a: Arena, ix: Index, org: string, repo: string, root: Handle, g: Goal): (r: Result<(Arena, Index), Error>)
    requires Good(a, ix) && root < |a.store|
    ensures r.Ok? ==> Good(r.value.0, r.value.1) && |a.store| <= |r.value.0.store|
    ensures r.Ok? ==>
      var sn := Lookup(a, ix, g).2;
      && sn in r.value.1.parents && r.value.1.parents[sn] == root && sn in r.value.0.store[root].sub
      && r.value.0.store[sn].parent == Some(r.value.0.store[root].link)
    decreases g, 3
  {
    var found := Lookup(a, ix, g);
    var sn := found.2;
    var a2 := Retitle(found.0, found.1, org, repo, sn);
    match ResolveAt(a2, found.1, org, repo, sn, g)
    case Err(e) => Err(e)
    case Ok(done) => Finish(done.0, done.1, root, sn)
  }

  /**
   * The end of one local item (github.go:353-381): check the node's parent link, make the
   * node it is listed under its parent, and place it there.
   */
  function Finish(a: Arena, ix: Index, root: Handle, sn: Handle): (r: Result<(Arena, Index), Error>)
    requires Good(a, ix) && root < |a.store| && sn < |a.store|
    ensures r.Ok? ==> Good(r.value.0, r.value.1) && |a.store| == |r.value.0.store|
    ensures r.Ok? ==>
      && sn in r.value.1.parents && r.value.1.parents[sn] == root && sn in r.value.0.store[root].sub
      && r.value.0.store[sn].parent == Some(r.value.0.store[root].link)
    ensures ParentConflict(a.store[sn].parent, a.store[sn].link, a.store[root].link).Some? ==> r.Err?
  {
    match ParentConflict(a.store[sn].parent, a.store[sn].link, a.store[root].link)
    case Some(e) => Err(e)
    case None => Place(Adopted(a, ix, root, sn), ix, root, sn)
  }

  /** resolve(root, local) (github.go:297-384): fill the node from the local one, then each local child in turn. */
  function ResolveAt(a: Arena, ix: Index, org: string, repo: string, root: Handle, local: Goal): (r: Result<(Arena, Index), Error>)
    requires Good(a, ix) && root < |a.store|
    ensures r.Ok? ==> Good(r.value.0, r.value.1) && |a.store| <= |r.value.0.store|
    decreases local, 2
  {
    var n := Fill(a.store[root], local.node);
    PokeKeepsGood(a, ix, root, n);
    SubsFrom(Poke(a, root, n), ix, org, repo, root, local, 0)
  }

  /** The loop of resolve (github.go:309-382) from the `i`-th local child on, stopping at the first error. */
  function SubsFrom(a: Arena, ix: Index, org: string, repo: string, root: Handle, local: Goal, i: nat): (r: Result<(Arena, Index), Error>)
    requires Good(a, ix) && root < |a.store| && i <= |local.node.sub|
    ensures r.Ok? ==> Good(r.value.0, r.value.1) && |a.store| <= |r.value.0.store|
    decreases local, 1, |local.node.sub| - i
  {
    if i == |local.node.sub| then Ok((a, ix))
    else
      match Step(a, ix, org, repo, root, local.node.sub[i])
      case Err(e) => Err(e)
      case Ok(next) => SubsFrom(next.0, next.1, org, repo, root, local, i + 1)
  }

  /** The resolve loop takes one local child at a time. */
  lemma SubsFromStep(a: Arena, ix: Index, org: string, repo: string, root: Handle, local: Goal, i: nat)
    requires Good(a, ix) && root < |a.store| && i < |local.node.sub|
    ensures Step(a, ix, org, repo, root, local.node.sub[i]).Err? ==>
      SubsFrom(a, ix, org, repo, root, local, i) == Err(Step(a, ix, org, repo, root, local.node.sub[i]).error)
    ensures Step(a, ix, org, repo, root, local.node.sub[i]).Ok? ==>
      var next := Step(a, ix, org, repo, root, local.node.sub[i]).value;
      SubsFrom(a, ix, org, repo, root, local, i) == SubsFrom(next.0, next.1, org, repo, root, local, i + 1)
  {
  }

  // ---------------------------------------------------------------------------------
  // The repository, organisation and top-level trees

  /** One issue of the resolve loop (github.go:386-393): its local tree, if it has one, is resolved at its node. */
  function LocalStep(a: Arena, ix: Index, org: string, repo: string, iss: Issue, nd: Handle): (r: Result<(Arena, Index), Error>)
    requires Good(a, ix) && nd < |a.store|
    ensures r.Ok? ==> Good(r.value.0, r.value.1) && |a.store| <= |r.value.0.store|
    ensures iss.local.None? ==> r == Ok((a, ix))
  {
    match iss.local
    case None => Ok((a, ix))
    case Some(l) => ResolveAt(a, ix, org, repo, nd, l)
  }

  /** The resolve loop over the issues (github.go:385-394) from the `i`-th on, stopping at the first error. */
  function LocalsFrom(a: Arena, ix: Index, org: string, repo: string, issues: seq<Issue>, nodes: seq<Handle>, i: nat): (r: Result<(Arena, Index), Error>)
    requires Good(a, ix) && |nodes| == |issues| && i <= |issues| && AllBelow(nodes, |a.store|)
    ensures r.Ok? ==> Good(r.value.0, r.value.1) && |a.store| <= |r.value.0.store|
    decreases |issues| - i
  {
    if i == |issues| then Ok((a, ix))
    else
      match LocalStep(a, ix, org, repo, issues[i], nodes[i])
      case Err(e) => Err(e)
      case Ok(next) =>
        AllBelowGrow(nodes, |a.store|, |next.0.store|);
        LocalsFrom(next.0, next.1, org, repo, issues, nodes, i + 1)
  }

  /**
   * The orphan loop (github.go:396-402) over the first `k` issue nodes: every node still
   * without a parent link becomes a child of the repository node, and nothing else changes
   * but that node's children.
   */
  function OrphansUpTo(a: Arena, ix: Index, root: Handle, nodes: seq<Handle>, k: nat): (r: Arena)
    requires Good(a, ix) && root < |a.store| && k <= |nodes| && AllBelow(nodes, |a.store|)
    ensures Good(r, ix) && |r.store| == |a.store|
    ensures forall x :: 0 <= x < |a.store| ==> r.store[x].parent == a.store[x].parent
    ensures forall i :: 0 <= i < k ==> r.store[nodes[i]].parent.Some? || nodes[i] in r.store[root].sub
  {
    if k == 0 then a
    else
      var prev := OrphansUpTo(a, ix, root, nodes, k - 1);
      if prev.store[nodes[k - 1]].parent.Some? then prev
      else
        AttachKeepsGood(prev, ix, root, [nodes[k - 1]]);
        AddChildrenSpec(prev.store[root].sub, [nodes[k - 1]]);
        Attach(prev, root, [nodes[k - 1]])
  }

  /** One turn of the orphan loop, on the arena the turns before it left. */
  lemma OrphanStep(a: Arena, ix: Index, root: Handle, nodes: seq<Handle>, k: nat)
    requires Good(a, ix) && root < |a.store| && k < |nodes| && AllBelow(nodes, |a.store|)
    ensures var g := OrphansUpTo(a, ix, root, nodes, k);
      && Inv(g) && |g.store| == |a.store| && nodes[k] < |g.store|
      && OrphansUpTo(a, ix, root, nodes, k + 1)
         == if g.store[nodes[k]].parent.Some? then g else Attach(g, root, [nodes[k]])
  {
  }

  /** Every issue node has a declared parent or hangs under `root`. */
  predicate Placed(a: Arena, root: Handle, nodes: seq<Handle>)
    requires root < |a.store| && AllBelow(nodes, |a.store|)
  {
    forall i :: 0 <= i < |nodes| ==> a.store[nodes[i]].parent.Some? || nodes[i] in a.store[root].sub
  }

  lemma AllBelowGrow(hs: seq<Handle>, n: nat, m: nat)
    requires AllBelow(hs, n) && n <= m
    ensures AllBelow(hs, m)
  {
  }

  /**
   * ghRepo.asTree (github.go:232-404): index the issues, link declared parents, reconcile
   * local trees, and hang every issue that is left without a parent under `root`.
   */
  function RepoTree(a: Arena, root: Handle, org: string, repo: Repo): (r: Result<(Arena, seq<Handle>), Error>)
    requires Inv(a) && root < |a.store|
    ensures r.Ok? ==> Inv(r.value.0) && |a.store| <= |r.value.0.store|
    ensures r.Ok? ==> |r.value.1| == |repo.issues| && AllBelow(r.value.1, |r.value.0.store|)
    ensures r.Ok? ==> Placed(r.value.0, root, r.value.1)
  {
    var idx := IndexUpTo(a, repo.issues);
    match LinkFrom(idx.0, idx.1, idx.2, 0)
    case Err(e) => Err(e)
    case Ok(linked) =>
      match LocalsFrom(linked.0, linked.1, org, repo.name, repo.issues, idx.2, 0)
      case Err(e) => Err(e)
      case Ok(done) =>
        AllBelowGrow(idx.2, |idx.0.store|, |done.0.store|);
        var out := OrphansUpTo(done.0, done.1, root, idx.2, |idx.2|);
        assert Placed(out, root, idx.2);
        Ok((out, idx.2))
  }

  /** The node of a repository or organisation: its name as title and as link title, its page as url. */
  function PageRecord(name: string, url: string): (r: Record)
    ensures r.id == "" && r.sub == [] && r.parent.None?
  {
    Blank().(title := name, link := Link(name, url))
  }

  /** The NewNode call of github.go:193-200 and 215-222. */
  function PageNode(a: Arena, name: string, url: string): (r: (Arena, Handle))
    requires Inv(a)
    ensures Inv(r.0) && r.1 < |r.0.store| && |a.store| <= |r.0.store|
    ensures r == Upsert(a, PageRecord(name, url))
  {
    UpsertKeepsInv(a, PageRecord(name, url));
    Upsert(a, PageRecord(name, url))
  }

  function RepoURL(org: string, repo: string): string
  {
    "https://github.com/" + org + "/" + repo
  }

  function OrgURL(org: string): string
  {
    "https://github.com/" + org
  }

  /**
   * ghOrg.asTree (github.go:213-230) from the `i`-th repository on: each gets a node, is
   * built under it, and that node becomes a child of `root`; the first error stops it.
   */
  function ReposFrom(a: Arena, root: Handle, org: Org, i: nat): (r: Result<Arena, Error>)
    requires Inv(a) && root < |a.store| && i <= |org.repos|
    ensures r.Ok? ==> Inv(r.value) && |a.store| <= |r.value.store|
    decreases |org.repos| - i
  {
    if i == |org.repos| then Ok(a)
    else
      match RepoStep(a, root, org.name, org.repos[i])
      case Err(e) => Err(e)
      case Ok(next) => ReposFrom(next, root, org, i + 1)
  }

  /** The repository loop takes one step at a time. */
  lemma ReposFromStep(a: Arena, root: Handle, org: Org, i: nat)
    requires Inv(a) && root < |a.store| && i < |org.repos|
    ensures RepoStep(a, root, org.name, org.repos[i]).Err? ==>
      ReposFrom(a, root, org, i) == Err(RepoStep(a, root, org.name, org.repos[i]).error)
    ensures RepoStep(a, root, org.name, org.repos[i]).Ok? ==>
      ReposFrom(a, root, org, i) == ReposFrom(RepoStep(a, root, org.name, org.repos[i]).value, root, org, i + 1)
  {
  }

  /** One repository of ghOrg.asTree (github.go:215-227). */
  function RepoStep(a: Arena, root: Handle, org: string, repo: Repo): (r: Result<Arena, Error>)
    requires Inv(a) && root < |a.store|
    ensures r.Ok? ==> Inv(r.value) && |a.store| <= |r.value.store|
  {
    var up := PageNode(a, repo.name, RepoURL(org, repo.name));
    var built := RepoTree(up.0, up.1, org, repo);
    if built.Err? then Err(built.error)
    else
      RepoStepKeepsInv(a, root, org, repo);
      Ok(Attach(built.value.0, root, [up.1]))
  }

  /** The repository node, once built, goes under `root` without breaking the invariants. */
  lemma RepoStepKeepsInv(a: Arena, root: Handle, org: string, repo: Repo)
    requires Inv(a) && root < |a.store|
    ensures var up := PageNode(a, repo.name, RepoURL(org, repo.name));
      var built := RepoTree(up.0, up.1, org, repo);
      built.Ok? ==> Inv(Attach(built.value.0, root, [up.1])) && |a.store| <= |Attach(built.value.0, root, [up.1]).store|
  {
    hide RepoTree, Upsert;
    var up := PageNode(a, repo.name, RepoURL(org, repo.name));
    var built := RepoTree(up.0, up.1, org, repo);
    if built.Ok? {
      AttachKeepsInv(built.value.0, root, [up.1]);
    }
  }

  /** What an organisation node contributes to the top root (github.go:203-207): its only child, or itself. */
  function Contributed(a: Arena, nd: Handle): (r: Handle)
    requires Closed(a) && nd < |a.store|
    ensures r < |a.store|
  {
    if |a.store[nd].sub| == 1 then a.store[nd].sub[0] else nd
  }

  /**
   * Github.asTree (github.go:190-211) from the `i`-th organisation on: each gets a node,
   * is built under it, and contributes its only child or itself to `root`.
   */
  function OrgsFrom(a: Arena, root: Handle, orgs: seq<Org>, i: nat): (r: Result<Arena, Error>)
    requires Inv(a) && root < |a.store| && i <= |orgs|
    ensures r.Ok? ==> Inv(r.value) && |a.store| <= |r.value.store|
    decreases |orgs| - i
  {
    if i == |orgs| then Ok(a)
    else
      match OrgStep(a, root, orgs[i])
      case Err(e) => Err(e)
      case Ok(next) => OrgsFrom(next, root, orgs, i + 1)
  }

  /** The organisation loop takes one step at a time. */
  lemma OrgsFromStep(a: Arena, root: Handle, orgs: seq<Org>, i: nat)
    requires Inv(a) && root < |a.store| && i < |orgs|
    ensures OrgStep(a, root, orgs[i]).Err? ==> OrgsFrom(a, root, orgs, i) == Err(OrgStep(a, root, orgs[i]).error)
    ensures OrgStep(a, root, orgs[i]).Ok? ==> OrgsFrom(a, root, orgs, i) == OrgsFrom(OrgStep(a, root, orgs[i]).value, root, orgs, i + 1)
  {
  }

  /** One organisation of Github.asTree (github.go:192-208). */
  function OrgStep(a: Arena, root: Handle, org: Org): (r: Result<Arena, Error>)
    requires Inv(a) && root < |a.store|
    ensures r.Ok? ==> Inv(r.value) && |a.store| <= |r.value.store|
  {
    var up := PageNode(a, org.name, OrgURL(org.name));
    match ReposFrom(up.0, up.1, org, 0)
    case Err(e) => Err(e)
    case Ok(a3) =>
      OrgStepKeepsInv(a, root, org);
      Ok(Attach(a3, root, [Contributed(a3, up.1)]))
  }

  /** What the organisation node contributes goes under `root` without breaking the invariants. */
  lemma OrgStepKeepsInv(a: Arena, root: Handle, org: Org)
    requires Inv(a) && root < |a.store|
    ensures var up := PageNode(a, org.name, OrgURL(org.name));
      var built := ReposFrom(up.0, up.1, org, 0);
      built.Ok? ==>
        && up.1 < |built.value.store|
        && Inv(Attach(built.value, root, [Contributed(built.value, up.1)]))
        && |a.store| <= |Attach(built.value, root, [Contributed(built.value, up.1)]).store|
  {
    hide ReposFrom, Upsert;
    var up := PageNode(a, org.name, OrgURL(org.name));
    var built := ReposFrom(up.0, up.1, org, 0);
    if built.Ok? {
      AttachKeepsInv(built.value, root, [Contributed(built.value, up.1)]);
    }
  }
}

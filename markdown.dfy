/**
 * markdown.go: building a goal tree from a parsed markdown document, the field
 * extractors it relies on (priority tags, hash references, URLs, check boxes,
 * `**Progress:**` and `**Parent…:**` fields), and rendering a tree back to markdown.
 *
 * The markdown parser is an outside library; its output is the input datatype `MdNode`.
 */
module Markdown {

  import opened Types
  import opened Text
  import opened Scan
  import opened Nodes

  // ---------------------------------------------------------------------------------
  // The parsed document

  /** The markdown node types the conversion looks at; every other type is `OtherNode`. */
  datatype Kind =
    | DocumentNode | HeadingNode | ParagraphNode | ListNode | ItemNode
    | TextNode | StrongNode | LinkNode | OtherNode

  /**
   * A node of the parsed document: its type, its text (for text nodes), its level (for
   * headings), its destination and title (for links), and its children in order.
   */
  datatype MdNode = MdNode(
    kind: Kind,
    literal: string,
    level: int,
    destination: string,
    linkTitle: string,
    children: seq<MdNode>)

  /** The literal of the first child when that child is a text node. */
  function FirstText(n: MdNode): Option<string>
  {
    if |n.children| > 0 && n.children[0].kind == TextNode then Some(n.children[0].literal) else None
  }

  // ---------------------------------------------------------------------------------
  // parseTitle (markdown.go:229-257)

  /** The text with the leftmost priority tag cut out. */
  function AfterPriority(s: string): string
  {
    match Find(PriorityTag, s, 0)
    case None => s
    case Some(m) => s[..m.start] + s[m.end..]
  }

  /** The priority the leftmost tag sets: none when there is no tag or its number overflows. */
  function TagPriority(s: string): Option<int>
  {
    match Find(PriorityTag, s, 0)
    case None => None
    case Some(m) => GroupDigits(PriorityTag, s, m); Atoi(m.group)
  }

  /** One `#N` link per hash-reference match. */
  function RefLinks(ms: seq<Match>): (r: seq<Link>)
    ensures |r| == |ms|
    ensures forall k :: 0 <= k < |ms| ==> r[k] == Link("#" + ms[k].group, "#" + ms[k].group)
  {
    seq(|ms|, k requires 0 <= k < |ms| => Link("#" + ms[k].group, "#" + ms[k].group))
  }

  lemma RefLinksPrefix(ms: seq<Match>, i: nat)
    requires i < |ms|
    ensures RefLinks(ms[..i + 1]) == RefLinks(ms[..i]) + [Link("#" + ms[i].group, "#" + ms[i].group)]
  {
  }

  /** One title-less link per URL match, carrying the matched URL. */
  function UrlLinks(ms: seq<Match>): (r: seq<Link>)
    ensures |r| == |ms|
    ensures forall k :: 0 <= k < |ms| ==> r[k] == Link("", ms[k].group)
  {
    seq(|ms|, k requires 0 <= k < |ms| => Link("", ms[k].group))
  }

  lemma UrlLinksPrefix(ms: seq<Match>, i: nat)
    requires i < |ms|
    ensures UrlLinks(ms[..i + 1]) == UrlLinks(ms[..i]) + [Link("", ms[i].group)]
  {
  }

  /** What parseTitle finds in a line of text. */
  datatype TitleParts = TitleParts(priority: Option<int>, links: seq<Link>, title: string)

  /**
   * The priority of the leftmost tag; every hash reference and then every URL as a link,
   * in order of appearance; and the text left once the tag, the references and the URLs
   * are cut out, trimmed.
   */
  function SplitTitle(s: string): TitleParts
  {
    var s1 := AfterPriority(s);
    var s2 := Strip(HashRef, s1, 0);
    var us := FindAll(Url, s2, 0);
    TitleParts(TagPriority(s), RefLinks(FindAll(HashRef, s1, 0)) + UrlLinks(us),
               TrimSpace(RemoveEach(s2, Texts(s2, us))))
  }

  /** A title without `[`, `#` or `h` has no priority and no links, and is only trimmed. */
  lemma PlainTitle(s: string)
    requires Plain(s)
    ensures SplitTitle(s) == TitleParts(None, [], TrimSpace(s))
  {
    PlainFindsNothing(PriorityTag, s, 0);
    assert AfterPriority(s) == s;
    PlainFindsNothing(HashRef, s, 0);
    PlainFindsNothing(Url, s, 0);
    assert Texts(s, []) == [];
  }

  /** How parseTitle stores what it found: a single link becomes Link, any other number becomes Links. */
  function ApplyTitle<C>(n: Node<C>, t: TitleParts): Node<C>
  {
    n.(priority := if t.priority.Some? then t.priority else n.priority,
       link := if |t.links| == 1 then t.links[0] else n.link,
       links := if |t.links| == 1 then n.links else t.links,
       title := t.title)
  }

  /**
   * parseTitle: the string is edited with one `strings.Replace(s, match, "", 1)` per
   * match, which removes exactly the matched spans.
   */
  method ParseTitle<C>(n: Node<C>, s0: string) returns (r: Node<C>)
    ensures r == ApplyTitle(n, SplitTitle(s0))
  {
    r := n;
    var s1, pr := CutPriority(s0);
    if pr.Some? {
      r := r.(priority := pr);
    }
    var s2, refLinks := CutRefs(s1);
    var s3, urlLinks := CutUrls(s2);
    var links := refLinks + urlLinks;
    if |links| == 1 {
      r := r.(link := links[0]);
    } else {
      r := r.(links := links);
    }
    r := r.(title := TrimSpace(s3));
  }

  /** markdown.go:230-236: the leftmost priority tag is removed and its number read. */
  method CutPriority(s0: string) returns (s: string, pr: Option<int>)
    ensures s == AfterPriority(s0) && pr == TagPriority(s0)
  {
    s := s0;
    pr := None;
    var pm := Find(PriorityTag, s, 0);
    if pm.Some? {
      var m := pm.value;
      PriorityRemovedInPlace(s);
      s := ReplaceFirst(s, s[m.start..m.end], "");
      GroupDigits(PriorityTag, s0, m);
      pr := Atoi(m.group);
    }
  }

  /** markdown.go:237-244: every hash reference becomes a link and is removed from the text. */
  method CutRefs(s1: string) returns (s: string, links: seq<Link>)
    ensures s == Strip(HashRef, s1, 0)
    ensures links == RefLinks(FindAll(HashRef, s1, 0))
  {
    var refs := FindAll(HashRef, s1, 0);
    s, links := CutEachRef(s1, refs, Texts(s1, refs));
    RemoveHashRefs(s1);
  }

  /** The loop of markdown.go:238-244 over the matches `refs`, whose texts are `texts`. */
  method CutEachRef(s1: string, refs: seq<Match>, texts: seq<string>) returns (s: string, links: seq<Link>)
    requires |texts| == |refs|
    ensures s == RemoveEach(s1, texts)
    ensures links == RefLinks(refs)
  {
    links := [];
    s := s1;
    var i := 0;
    while i < |refs|
      invariant 0 <= i <= |refs|
      invariant s == RemoveEach(s1, texts[..i])
      invariant links == RefLinks(refs[..i])
    {
      RemoveEachPrefix(s1, texts, i);
      RefLinksPrefix(refs, i);
      s := ReplaceFirst(s, texts[i], "");
      links := links + [Link("#" + refs[i].group, "#" + refs[i].group)];
      i := i + 1;
    }
    assert texts[..|refs|] == texts && refs[..|refs|] == refs;
  }

  /** markdown.go:245-250: every URL match becomes a link and is removed from the text. */
  method CutUrls(s2: string) returns (s: string, links: seq<Link>)
    ensures s == RemoveEach(s2, Texts(s2, FindAll(Url, s2, 0)))
    ensures links == UrlLinks(FindAll(Url, s2, 0))
  {
    var us := FindAll(Url, s2, 0);
    s, links := CutEachUrl(s2, us, Texts(s2, us));
  }

  /** The loop of markdown.go:245-250 over the matches `us`, whose texts are `texts`. */
  method CutEachUrl(s2: string, us: seq<Match>, texts: seq<string>) returns (s: string, links: seq<Link>)
    requires |texts| == |us|
    ensures s == RemoveEach(s2, texts)
    ensures links == UrlLinks(us)
  {
    links := [];
    s := s2;
    var i := 0;
    while i < |us|
      invariant 0 <= i <= |us|
      invariant s == RemoveEach(s2, texts[..i])
      invariant links == UrlLinks(us[..i])
    {
      RemoveEachPrefix(s2, texts, i);
      UrlLinksPrefix(us, i);
      s := ReplaceFirst(s, texts[i], "");
      links := links + [Link("", us[i].group)];
      i := i + 1;
    }
    assert texts[..|us|] == texts && us[..|us|] == us;
  }

  /** Every hash-reference link is `#` followed by the digits of the reference, as both title and URL. */
  lemma RefLinksShape(s: string)
    ensures forall l :: l in RefLinks(FindAll(HashRef, AfterPriority(s), 0)) ==>
      l.title == l.url && |l.title| >= 2 && l.title[0] == '#' && AllDigits(l.title[1..])
  {
    var s1 := AfterPriority(s);
    var ms := FindAll(HashRef, s1, 0);
    forall l | l in RefLinks(ms)
      ensures l.title == l.url && |l.title| >= 2 && l.title[0] == '#' && AllDigits(l.title[1..])
    {
      var k :| 0 <= k < |ms| && RefLinks(ms)[k] == l;
      GroupDigits(HashRef, s1, ms[k]);
      assert l.title[1..] == ms[k].group;
    }
  }

  // ---------------------------------------------------------------------------------
  // mdItem2Tree and mdList2Tree (markdown.go:218-227, 259-280)

  /**
   * The check box of markdown.go:266-272: a first line of more than four characters
   * with `[` at 0, `]` at 2 and a space at 3 loses those four characters (and is
   * trimmed); the box is checked when its mark is not a space.
   */
  function Checkbox(s: string): (r: (string, bool))
    ensures r.1 ==> |s| > 4 && s[0] == '[' && s[2] == ']' && IsSpace(s[3]) && !IsSpace(s[1])
    ensures |s| > 4 && s[0] == '[' && s[2] == ']' && IsSpace(s[3]) ==>
      r.0 == TrimSpace(s[4..]) && (r.1 <==> !IsSpace(s[1]))
    ensures !(|s| > 4 && s[0] == '[' && s[2] == ']' && IsSpace(s[3])) ==> r == (s, false)
  {
    if |s| > 4 && s[0] == '[' && s[2] == ']' && IsSpace(s[3]) then (TrimSpace(s[4..]), !IsSpace(s[1]))
    else (s, false)
  }

  /** The effect of one child of a list item on the item's node, apart from its sub-list. */
  function ItemStep(cur: Record, n: MdNode): Record
  {
    if n.kind == ParagraphNode && FirstText(n).Some? then
      var (t, done) := Checkbox(FirstText(n).value);
      ApplyTitle(if done then cur.(progress := Some(Progress(1, 1))) else cur, SplitTitle(t))
    else cur
  }

  /** The fields an item's paragraphs give its node, applied in document order. */
  function ItemFields(ch: seq<MdNode>): Record
  {
    if ch == [] then Blank() else ItemStep(ItemFields(ch[..|ch| - 1]), ch[|ch| - 1])
  }

  /** One more child applies its step to the fields of those before it. */
  lemma ItemFieldsSnoc(ch: seq<MdNode>, i: nat)
    requires i < |ch|
    ensures ItemFields(ch[..i + 1]) == ItemStep(ItemFields(ch[..i]), ch[i])
  {
    assert ch[..i + 1][..i] == ch[..i];
  }

  /** A checked box makes the item done; an unchecked one leaves its progress unset. */
  lemma CheckedItemIsDone(s: string)
    ensures var (t, done) := Checkbox(s);
      var n := ItemStep(Blank(), MdNode(ParagraphNode, "", 0, "", "", [MdNode(TextNode, s, 0, "", "", [])]));
      && (done ==> n.progress == Some(Progress(1, 1)) && n.progress.value.IsDone())
      && (!done ==> n.progress.None?)
      && n.title == SplitTitle(t).title
  {
  }

  /** The number of item children of a list: the number of nodes mdList2Tree returns. */
  function ItemCount(ch: seq<MdNode>): nat
  {
    if ch == [] then 0 else ItemCount(ch[..|ch| - 1]) + if ch[|ch| - 1].kind == ItemNode then 1 else 0
  }

  /**
   * mdItem2Tree's loop (markdown.go:261-277) over the first `i` children of `item`: the
   * tree so far and the node being filled. A paragraph sets fields; a nested list is
   * built, and its nodes replace the sub-list, so the last list wins.
   */
  function ItemLoop(a: Arena, item: MdNode, i: nat): (r: (Arena, Record))
    requires Inv(a) && i <= |item.children|
    ensures Inv(r.0) && |a.store| <= |r.0.store| && RecordIn(r.1, |r.0.store|)
    decreases item, 1, i
  {
    if i == 0 then (a, Blank())
    else
      var prev := ItemLoop(a, item, i - 1);
      var n := item.children[i - 1];
      if n.kind == ListNode then
        var list := ListTree(prev.0, n);
        (list.0, prev.1.(sub := list.1))
      else (prev.0, ItemStep(prev.1, n))
  }

  /** mdItem2Tree (markdown.go:259-280): the filled node is upserted; the result is the node NewNode returns. */
  function ItemTree(a: Arena, item: MdNode): (r: (Arena, Handle))
    requires Inv(a)
    ensures Inv(r.0) && |a.store| <= |r.0.store| && r.1 < |r.0.store|
    decreases item, 2
  {
    var built := ItemLoop(a, item, |item.children|);
    UpsertKeepsInv(built.0, built.1);
    Upsert(built.0, built.1)
  }

  /** mdList2Tree's loop (markdown.go:219-226) over the first `i` children: the tree and the item nodes so far. */
  function ListLoop(a: Arena, list: MdNode, i: nat): (r: (Arena, seq<Handle>))
    requires Inv(a) && i <= |list.children|
    ensures Inv(r.0) && |a.store| <= |r.0.store|
    ensures |r.1| == ItemCount(list.children[..i]) && forall k :: 0 <= k < |r.1| ==> r.1[k] < |r.0.store|
    decreases list, 1, i
  {
    if i == 0 then (a, [])
    else
      var prev := ListLoop(a, list, i - 1);
      var n := list.children[i - 1];
      assert list.children[..i][..i - 1] == list.children[..i - 1];
      if n.kind == ItemNode then
        var node := ItemTree(prev.0, n);
        (node.0, prev.1 + [node.1])
      else prev
  }

  /** mdList2Tree (markdown.go:218-227): one node per item child, in order. */
  function ListTree(a: Arena, list: MdNode): (r: (Arena, seq<Handle>))
    requires Inv(a)
    ensures Inv(r.0) && |a.store| <= |r.0.store|
    ensures |r.1| == ItemCount(list.children) && forall k :: 0 <= k < |r.1| ==> r.1[k] < |r.0.store|
    decreases list, 2
  {
    assert list.children[..|list.children|] == list.children;
    ListLoop(a, list, |list.children|)
  }

  /** The position of the last nested list among the first `i` children. */
  function LastList(ch: seq<MdNode>, i: nat): (r: Option<nat>)
    requires i <= |ch|
    ensures r.Some? ==>
      r.value < i && ch[r.value].kind == ListNode && forall j :: r.value < j < i ==> ch[j].kind != ListNode
    ensures r.None? ==> forall j :: 0 <= j < i ==> ch[j].kind != ListNode
  {
    if i == 0 then None
    else if ch[i - 1].kind == ListNode then Some(i - 1)
    else LastList(ch, i - 1)
  }

  /** The node mdItem2Tree fills has the fields the item's paragraphs give it, in document order. */
  lemma {:induction false} ItemLoopFields(a: Arena, item: MdNode, i: nat)
    requires Inv(a) && i <= |item.children|
    ensures var rec := ItemLoop(a, item, i).1; rec == ItemFields(item.children[..i]).(sub := rec.sub)
    decreases i
  {
    if i > 0 {
      ItemLoopFields(a, item, i - 1);
      ItemFieldsSnoc(item.children, i - 1);
      ItemLoopSnoc(a, item, i - 1);
      var cur := ItemLoop(a, item, i - 1).1;
      ItemStepSub(ItemFields(item.children[..i - 1]), item.children[i - 1], cur.sub);
      hide ItemLoop, ItemStep, ItemFields, ListTree, Inv, Closed, RecordIn;
    }
  }

  /** The nodes built for the last nested list among the first `i` children; none without one. */
  function LastListNodes(a: Arena, item: MdNode, i: nat): seq<Handle>
    requires Inv(a) && i <= |item.children|
  {
    match LastList(item.children, i)
    case None => []
    case Some(j) => ListTree(ItemLoop(a, item, j).0, item.children[j]).1
  }

  /** Its sub-list is the nodes of the item's last nested list, and empty when there is none. */
  lemma {:induction false} ItemLoopSub(a: Arena, item: MdNode, i: nat)
    requires Inv(a) && i <= |item.children|
    ensures ItemLoop(a, item, i).1.sub == LastListNodes(a, item, i)
    decreases i
  {
    hide Inv, Closed, RecordIn, ItemStep, ListTree;
    if i > 0 {
      hide ItemLoop;
      ItemLoopSub(a, item, i - 1);
      ItemLoopSnoc(a, item, i - 1);
      var n := item.children[i - 1];
      var b := ItemLoop(a, item, i - 1).0;
      var cur := ItemLoop(a, item, i - 1).1;
      if n.kind == ListNode {
        assert LastListNodes(a, item, i) == ListTree(b, n).1;
      } else {
        assert LastListNodes(a, item, i) == LastListNodes(a, item, i - 1);
        ItemStepSub(cur, n, cur.sub);
      }
    }
  }

  /** The whole item: its node carries the item's fields and its last nested list. */
  lemma ItemTreeFields(a: Arena, item: MdNode)
    requires Inv(a)
    ensures var (b, rec) := ItemLoop(a, item, |item.children|);
      && ItemTree(a, item) == Upsert(b, rec)
      && rec == ItemFields(item.children).(sub := rec.sub)
      && rec.sub == LastListNodes(a, item, |item.children|)
  {
    ItemLoopFields(a, item, |item.children|);
    ItemLoopSub(a, item, |item.children|);
    assert item.children[..|item.children|] == item.children;
  }

  /** One more child of the item: the step of mdItem2Tree's loop on the tree and the node. */
  lemma ItemLoopSnoc(a: Arena, item: MdNode, i: nat)
    requires Inv(a) && i < |item.children|
    ensures var prev := ItemLoop(a, item, i);
      var n := item.children[i];
      && (n.kind == ListNode ==> ItemLoop(a, item, i + 1) == (ListTree(prev.0, n).0, prev.1.(sub := ListTree(prev.0, n).1)))
      && (n.kind != ListNode ==> ItemLoop(a, item, i + 1) == (prev.0, ItemStep(prev.1, n)))
  {
  }

  /** A paragraph of an item leaves its sub-list alone. */
  lemma ItemStepSub(cur: Record, n: MdNode, s: seq<Handle>)
    ensures ItemStep(cur.(sub := s), n) == ItemStep(cur, n).(sub := s)
    ensures ItemStep(cur, n).sub == cur.sub
  {
    hide SplitTitle;
  }

  /** The handle at position `ItemCount` of the children before `k` is the node of the item at `k`. */
  lemma {:induction false} ListLoopItem(a: Arena, list: MdNode, i: nat, k: nat)
    requires Inv(a) && k < i <= |list.children| && list.children[k].kind == ItemNode
    ensures var hs := ListLoop(a, list, i).1;
      ItemCount(list.children[..k]) < |hs|
      && hs[ItemCount(list.children[..k])] == ItemTree(ListLoop(a, list, k).0, list.children[k]).1
    decreases i
  {
    hide ListLoop, ItemTree, Inv;
    ListLoopSnoc(a, list, i - 1);
    if k < i - 1 {
      ListLoopItem(a, list, i - 1, k);
    }
  }

  /** After `i` turns of mdItem2Tree's loop from the tree `a0`, the tree is `a` and the node being filled is `cur`. */
  ghost predicate ItemBuilt(a0: Arena, item: MdNode, i: nat, a: Arena, cur: Record)
  {
    Inv(a0) && i <= |item.children| && (a, cur) == ItemLoop(a0, item, i)
  }

  /** A child that is not a list applies its step to the node and leaves the tree alone. */
  lemma ItemTurn(a0: Arena, item: MdNode, i: nat, a: Arena, cur: Record)
    requires ItemBuilt(a0, item, i, a, cur) && i < |item.children| && item.children[i].kind != ListNode
    ensures ItemBuilt(a0, item, i + 1, a, ItemStep(cur, item.children[i]))
  {
    ItemLoopSnoc(a0, item, i);
  }

  /** A nested list is built on the tree, and its nodes become the sub-list. */
  lemma ItemListTurn(a0: Arena, item: MdNode, i: nat, a: Arena, cur: Record, b: Arena, hs: seq<Handle>)
    requires ItemBuilt(a0, item, i, a, cur) && i < |item.children| && item.children[i].kind == ListNode
    requires Inv(a) && (b, hs) == ListTree(a, item.children[i])
    ensures ItemBuilt(a0, item, i + 1, b, cur.(sub := hs))
  {
    ItemLoopSnoc(a0, item, i);
  }

  /** mdItem2Tree (markdown.go:259-280). */
  method ItemToTree(tr: Tree, item: MdNode) returns (h: Handle)
    requires tr.Valid()
    modifies tr
    ensures tr.Valid() && tr.root == old(tr.root)
    ensures (tr.Snapshot(), h) == ItemTree(old(tr.Snapshot()), item)
    decreases item, 1
  {
    ghost var a0 := tr.Snapshot();
    var cur: Record := Blank();
    var i := 0;
    while i < |item.children|
      invariant tr.Valid() && tr.root == old(tr.root)
      invariant ItemBuilt(a0, item, i, tr.Snapshot(), cur)
    {
      var n := item.children[i];
      hide ItemLoop, SplitTitle, ListTree, Inv, Closed, RecordIn;
      if n.kind == ListNode {
        ghost var a := tr.Snapshot();
        var hs := ListToTree(tr, n);
        ItemListTurn(a0, item, i, a, cur, tr.Snapshot(), hs);
        cur := cur.(sub := hs);
      } else {
        ItemTurn(a0, item, i, tr.Snapshot(), cur);
        if n.kind == ParagraphNode && FirstText(n).Some? {
          var (t, done) := Checkbox(FirstText(n).value);
          if done {
            cur := cur.(progress := Some(Progress(1, 1)));
          }
          cur := ParseTitle(cur, t);
        }
      }
      i := i + 1;
    }
    h := tr.NewNode(cur);
  }

  /** After `i` turns of mdList2Tree's loop from the tree `a0`, the tree is `a` and the item nodes are `hs`. */
  ghost predicate ListBuilt(a0: Arena, list: MdNode, i: nat, a: Arena, hs: seq<Handle>)
  {
    Inv(a0) && i <= |list.children| && (a, hs) == ListLoop(a0, list, i)
  }

  /** An item child adds its node; any other child changes nothing. */
  lemma ListTurn(a0: Arena, list: MdNode, i: nat, a: Arena, hs: seq<Handle>)
    requires ListBuilt(a0, list, i, a, hs) && i < |list.children|
    ensures Inv(a)
    ensures list.children[i].kind == ItemNode ==>
      var (b, h) := ItemTree(a, list.children[i]);
      ListBuilt(a0, list, i + 1, b, hs + [h])
    ensures list.children[i].kind != ItemNode ==> ListBuilt(a0, list, i + 1, a, hs)
  {
  }

  /** mdList2Tree (markdown.go:218-227). */
  method ListToTree(tr: Tree, list: MdNode) returns (hs: seq<Handle>)
    requires tr.Valid()
    modifies tr
    ensures tr.Valid() && tr.root == old(tr.root)
    ensures (tr.Snapshot(), hs) == ListTree(old(tr.Snapshot()), list)
    decreases list, 0
  {
    ghost var a0 := tr.Snapshot();
    hs := [];
    var i := 0;
    while i < |list.children|
      invariant tr.Valid() && tr.root == old(tr.root)
      invariant ListBuilt(a0, list, i, tr.Snapshot(), hs)
    {
      ListTurn(a0, list, i, tr.Snapshot(), hs);
      hide ItemTree, ListLoop, ListBuilt;
      if list.children[i].kind == ItemNode {
        var h := ItemToTree(tr, list.children[i]);
        hs := hs + [h];
      }
      i := i + 1;
    }
    assert list.children[..|list.children|] == list.children;
  }

  // ---------------------------------------------------------------------------------
  // mdParToDesc (markdown.go:141-216)

  /**
   * The `**Progress:**` value (markdown.go:158-180): a percentage `N%` is tried first
   * and sets N/100 unless N is 0; otherwise a fraction `A/B` sets A/B unless a number
   * overflows; otherwise the progress is kept.
   */
  function ProgressField(val: string, p: Option<Progress>): Option<Progress>
  {
    match Find(Percent, val, 0)
    case Some(m) =>
      GroupDigits(Percent, val, m);
      var v := DigitsValue(m.group);
      if v != 0 then Some(Progress(v, 100)) else p
    case None =>
      match Find(Parts, val, 0)
      case None => p
      case Some(m) =>
        GroupDigits(Parts, val, m);
        match (Atoi(m.group), Atoi(m.group2))
        case (Some(d), Some(t)) => Some(Progress(d, t))
        case _ => p
  }

  /**
   * The `**Parent…:**` value (markdown.go:183-206): from the text, the first `#N` is
   * the title and the first URL the URL; for an empty text, the link node that follows
   * (at `next`) gives them and is consumed. An empty URL takes the title.
   */
  function ParentField(val: string, ch: seq<MdNode>, next: nat): (r: (Link, bool))
    ensures r.1 ==> val == "" && next < |ch| && ch[next].kind == LinkNode
    ensures r.0.url == "" ==> r.0 == NoLink
  {
    var (u, used) :=
      if val != "" then
        (Link(match Find(HashRef, val, 0) { case Some(m) => "#" + m.group case None => "" },
              match Find(Url, val, 0) { case Some(m) => m.group case None => "" }), false)
      else if next < |ch| && ch[next].kind == LinkNode then
        var l := ch[next];
        (Link(if l.linkTitle != "" then l.linkTitle else match FirstText(l) { case Some(t) => t case None => "" },
              l.destination), true)
      else (NoLink, false);
    (if u.url == "" then u.(url := u.title) else u, used)
  }

  /** Every strong node among `ch` has a first child, of any kind: mdParToDesc reads it for every strong node. */
  predicate StrongsHaveChild(ch: seq<MdNode>)
  {
    forall i :: 0 <= i < |ch| && ch[i].kind == StrongNode ==> |ch[i].children| > 0
  }

  /**
   * The walk over a paragraph's children from position `i`, with the node and the
   * description gathered so far: the first non-empty text is the description, and a
   * strong key followed by a text value sets a field.
   */
  function ParFrom<C>(ch: seq<MdNode>, i: nat, r: Node<C>, desc: string): (Node<C>, string)
    requires StrongsHaveChild(ch)
    decreases |ch| - i
  {
    if i >= |ch| then (r, desc)
    else
      var n := ch[i];
      if n.kind == TextNode then
        ParFrom(ch, i + 1, r, if desc == "" then TrimSpace(n.literal) else desc)
      else if n.kind == StrongNode && i + 1 < |ch| && ch[i + 1].kind == TextNode then
        var key := TrimSuffix(n.children[0].literal, ":");
        var val := TrimSpace(ch[i + 1].literal);
        if key == "Progress" then
          ParFrom(ch, i + 2, r.(progress := ProgressField(val, r.progress)), desc)
        else if HasPrefix(key, "Parent") then
          var (u, used) := ParentField(val, ch, i + 2);
          ParFrom(ch, if used then i + 3 else i + 2, if u != NoLink then r.(parent := Some(u)) else r, desc)
        else ParFrom(ch, i + 2, r, desc)
      else ParFrom(ch, i + 1, r, desc)
  }

  /** mdParToDesc's effect: the fields found, then the description appended on a new line. */
  function ParDesc<C>(nd: Node<C>, par: MdNode): Node<C>
    requires StrongsHaveChild(par.children)
  {
    var (r, desc) := ParFrom(par.children, 0, nd, "");
    r.(desc := if r.desc == "" then desc else r.desc + "\n" + desc)
  }

  /** mdParToDesc: the loop over the paragraph's children, as markdown.go:143-215 runs it. */
  method ParToDesc<C>(nd: Node<C>, par: MdNode) returns (r: Node<C>)
    requires StrongsHaveChild(par.children)
    ensures r == ParDesc(nd, par)
  {
    hide ProgressField, ParentField, Find;
    var ch := par.children;
    var desc := "";
    r := nd;
    var i := 0;
    while i < |ch|
      invariant 0 <= i <= |ch|
      invariant ParFrom(ch, i, r, desc) == ParFrom(ch, 0, nd, "")
      decreases |ch| - i
    {
      var n := ch[i];
      if n.kind == TextNode {
        if desc == "" {
          desc := TrimSpace(n.literal);
        }
      } else if n.kind == StrongNode {
        var key := TrimSuffix(n.children[0].literal, ":");
        if i + 1 < |ch| && ch[i + 1].kind == TextNode {
          i := i + 1;
          var val := TrimSpace(ch[i].literal);
          if key == "Progress" {
            r := r.(progress := ProgressField(val, r.progress));
          } else if HasPrefix(key, "Parent") {
            var (u, used) := ParentField(val, ch, i + 1);
            if used {
              i := i + 1;
            }
            if u != NoLink {
              r := r.(parent := Some(u));
            }
          }
        }
      }
      i := i + 1;
    }
    r := r.(desc := if r.desc == "" then desc else r.desc + "\n" + desc);
  }

  /**
   * A paragraph changes only the node's description, progress and parent, and the old
   * description stays in front of the new one.
   */
  lemma ParDescFrame<C>(nd: Node<C>, par: MdNode)
    requires StrongsHaveChild(par.children)
    ensures var r := ParDesc(nd, par);
      && r.(desc := nd.desc, progress := nd.progress, parent := nd.parent) == nd
      && (nd.desc != "" ==> HasPrefix(r.desc, nd.desc + "\n"))
  {
    ParFromFrame(par.children, 0, nd, "");
  }

  lemma {:induction false} ParFromFrame<C>(ch: seq<MdNode>, i: nat, r: Node<C>, desc: string)
    requires StrongsHaveChild(ch)
    ensures ParFrom(ch, i, r, desc).0.(progress := r.progress, parent := r.parent) == r
    decreases |ch| - i
  {
    if i < |ch| {
      var n := ch[i];
      if n.kind == TextNode {
        ParFromFrame(ch, i + 1, r, if desc == "" then TrimSpace(n.literal) else desc);
      } else if n.kind == StrongNode && i + 1 < |ch| && ch[i + 1].kind == TextNode {
        var key := TrimSuffix(n.children[0].literal, ":");
        var val := TrimSpace(ch[i + 1].literal);
        if key == "Progress" {
          ParFromFrame(ch, i + 2, r.(progress := ProgressField(val, r.progress)), desc);
        } else if HasPrefix(key, "Parent") {
          var (u, used) := ParentField(val, ch, i + 2);
          ParFromFrame(ch, if used then i + 3 else i + 2, if u != NoLink then r.(parent := Some(u)) else r, desc);
        } else {
          ParFromFrame(ch, i + 2, r, desc);
        }
      } else {
        ParFromFrame(ch, i + 1, r, desc);
      }
    }
  }

  // ---------------------------------------------------------------------------------
  // Walking down the last-child spine (markdown.go:100-118, 136-138)

  /** The two walks of mdDoc2Tree: cur() down to a leaf, and the root collapse. */
  datatype Walker = ToLeaf | Collapse

  /** Whether the walk goes on from a node: it has children; or it is a proxy with exactly one child. */
  predicate Goes(w: Walker, n: Record)
  {
    match w
    case ToLeaf => n.sub != []
    case Collapse => |n.sub| == 1 && IsProxy(n)
  }

  /** The node `k` steps down from `n`, each step to the last child; none if the walk stops earlier. */
  function Walk(w: Walker, store: seq<Record>, n: Handle, k: nat): (r: Option<Handle>)
    ensures r.Some? ==> r.value < |store|
    decreases k
  {
    if n >= |store| then None
    else if k == 0 then Some(n)
    else if !Goes(w, store[n]) then None
    else Walk(w, store, store[n].sub[|store[n].sub| - 1], k - 1)
  }

  /** Walking `a` steps and then `b` steps is walking `a + b` steps. */
  lemma {:induction false} WalkAdd(w: Walker, store: seq<Record>, n: Handle, a: nat, b: nat)
    ensures Walk(w, store, n, a + b)
         == match Walk(w, store, n, a) { case Some(m) => Walk(w, store, m, b) case None => None }
    decreases a
  {
    if n < |store| && a > 0 && Goes(w, store[n]) {
      WalkAdd(w, store, store[n].sub[|store[n].sub| - 1], a - 1, b);
    }
  }

  /** A walk that can go `k` steps can go any fewer. */
  lemma {:induction false} WalkPrefix(w: Walker, store: seq<Record>, n: Handle, j: nat, k: nat)
    requires j <= k && Walk(w, store, n, k).Some?
    ensures Walk(w, store, n, j).Some?
    decreases j
  {
    if j > 0 {
      WalkPrefix(w, store, store[n].sub[|store[n].sub| - 1], j - 1, k - 1);
    }
  }

  /** Among more than `n` values below `n`, two are equal. */
  lemma {:induction false} Pigeonhole(xs: seq<nat>, n: nat) returns (i: nat, j: nat)
    requires |xs| > n
    requires forall k :: 0 <= k < |xs| ==> xs[k] < n
    ensures i < j < |xs| && xs[i] == xs[j]
    decreases n
  {
    assert xs[0] < n;
    if exists p :: 0 <= p < |xs| && xs[p] == n - 1 {
      var p :| 0 <= p < |xs| && xs[p] == n - 1;
      if exists q :: 0 <= q < |xs| && q != p && xs[q] == n - 1 {
        var q :| 0 <= q < |xs| && q != p && xs[q] == n - 1;
        if p < q { i, j := p, q; } else { i, j := q, p; }
      } else {
        var ys := xs[..p] + xs[p + 1..];
        forall k | 0 <= k < |ys| ensures ys[k] < n - 1 {
          var t := if k < p then k else k + 1;
          assert ys[k] == xs[t] && t != p;
        }
        var a, b := Pigeonhole(ys, n - 1);
        i := if a < p then a else a + 1;
        j := if b < p then b else b + 1;
        assert xs[i] == ys[a] && xs[j] == ys[b];
      }
    } else {
      i, j := Pigeonhole(xs, n - 1);
    }
  }

  /**
   * A walk that can go one step more than there are nodes revisits a node, and so goes
   * on forever: the Go loop does not terminate.
   */
  lemma WalkForever(w: Walker, store: seq<Record>, n: Handle)
    requires Walk(w, store, n, |store| + 1).Some?
    ensures forall k: nat :: Walk(w, store, n, k).Some?
  {
    var N := |store|;
    var xs := seq(N + 1, k requires 0 <= k <= N => WalkValue(w, store, n, k, N + 1));
    var i, j := Pigeonhole(xs, N);
    forall k: nat ensures Walk(w, store, n, k).Some? {
      WalkCycle(w, store, n, i, j, k);
    }
  }

  /** The node `k` steps down, for a walk known to go `bound` steps. */
  function WalkValue(w: Walker, store: seq<Record>, n: Handle, k: nat, bound: nat): (r: nat)
    requires k <= bound && Walk(w, store, n, bound).Some?
    ensures Walk(w, store, n, k) == Some(r) && r < |store|
  {
    WalkPrefix(w, store, n, k, bound);
    Walk(w, store, n, k).value
  }

  /** Once the walk is back at a node it has visited, every longer walk exists too. */
  lemma {:induction false} WalkCycle(w: Walker, store: seq<Record>, n: Handle, i: nat, j: nat, k: nat)
    requires i < j && Walk(w, store, n, j).Some? && Walk(w, store, n, i) == Walk(w, store, n, j)
    ensures Walk(w, store, n, k).Some?
    decreases k
  {
    if k <= j {
      WalkPrefix(w, store, n, k, j);
    } else {
      var m := Walk(w, store, n, j).value;
      WalkAdd(w, store, n, j, k - j);
      WalkAdd(w, store, n, i, k - j);
      WalkCycle(w, store, n, i, j, i + k - j);
    }
  }

  /**
   * cur() (markdown.go:100-107): the deepest node down the last-child spine from `root`
   * and its depth; none when the spine never ends, where the Go loop does not terminate.
   */
  method Cur(tr: Tree, root: Handle) returns (c: Option<Handle>, lvl: nat)
    requires tr.Valid() && root < |tr.store|
    ensures c.Some? ==> Walk(ToLeaf, tr.store, root, lvl) == c && tr.store[c.value].sub == []
    ensures c.None? ==> forall k: nat :: Walk(ToLeaf, tr.store, root, k).Some?
    ensures c == SpineLeaf(tr.store, root)
  {
    var n := root;
    lvl := 0;
    while tr.store[n].sub != [] && lvl <= |tr.store|
      invariant lvl <= |tr.store| + 1
      invariant Walk(ToLeaf, tr.store, root, lvl) == Some(n)
      decreases |tr.store| + 1 - lvl
    {
      WalkAdd(ToLeaf, tr.store, root, lvl, 1);
      n := tr.store[n].sub[|tr.store[n].sub| - 1];
      lvl := lvl + 1;
    }
    if tr.store[n].sub != [] {
      WalkForever(ToLeaf, tr.store, root);
      SpineLeafForever(tr.Snapshot(), root);
      return None, lvl;
    }
    SpineLeafAt(tr.store, root, lvl);
    return Some(n), lvl;
  }

  /**
   * The root collapse of markdown.go:136-138: the root moves to its only child while it
   * is a proxy node; when that never stops the Go loop does not terminate.
   */
  method CollapseRoot(tr: Tree) returns (ok: bool, steps: nat)
    requires tr.Valid()
    modifies tr
    ensures tr.Valid() && tr.Snapshot() == old(tr.Snapshot())
    ensures ok ==> Walk(Collapse, tr.store, old(tr.root), steps) == Some(tr.root) && !Goes(Collapse, tr.store[tr.root])
    ensures !ok ==> forall k: nat :: Walk(Collapse, tr.store, old(tr.root), k).Some?
  {
    ghost var root0 := tr.root;
    steps := 0;
    while |tr.store[tr.root].sub| == 1 && IsProxy(tr.store[tr.root]) && steps <= |tr.store|
      invariant tr.Valid() && tr.Snapshot() == old(tr.Snapshot())
      invariant steps <= |tr.store| + 1
      invariant Walk(Collapse, tr.store, root0, steps) == Some(tr.root)
      decreases |tr.store| + 1 - steps
    {
      WalkAdd(Collapse, tr.store, root0, steps, 1);
      tr.root := tr.store[tr.root].sub[0];
      steps := steps + 1;
    }
    if |tr.store[tr.root].sub| == 1 && IsProxy(tr.store[tr.root]) {
      WalkForever(Collapse, tr.store, root0);
      return false, steps;
    }
    return true, steps;
  }

  // ---------------------------------------------------------------------------------
  // curAt (markdown.go:108-118)

  /**
   * curAt's placeholder step (markdown.go:111-113): `tr.NewNode(Node{})` stores a fresh
   * empty node in the bucket, and it becomes the only child of the childless node `n`.
   */
  function Sprout(a: Arena, n: Handle): Arena
    requires n < |a.store|
  {
    var k := |a.store|;
    a.(store := (a.store + [Blank()])[n := a.store[n].(sub := [k])], unk := a.unk + [k])
  }

  /** Upserting an empty node always creates a fresh node and puts it in the bucket. */
  lemma UpsertBlank(a: Arena)
    requires Inv(a)
    ensures Upsert(a, Blank()) == (a.(store := a.store + [Blank()], unk := a.unk + [|a.store|]), |a.store|)
  {
    var a2 := Create(a, Blank());
    CreateClosed(a, Blank());
    assert FirstWeak(a2, Blank(), 0).None?;
  }

  /** A node without id or url that matches nothing in the bucket is stored fresh and put in the bucket. */
  lemma UpsertFresh(a: Arena, nd: Record)
    requires Inv(a) && RecordIn(nd, |a.store|) && nd.id == "" && nd.link.url == ""
    requires forall i :: 0 <= i < |a.unk| ==> !WeakMatch(nd, a.store[a.unk[i]])
    ensures Upsert(a, nd) == (a.(store := a.store + [nd], unk := a.unk + [|a.store|]), |a.store|)
  {
    var a2 := Create(a, nd);
    CreateClosed(a, nd);
    assert FirstWeak(a2, nd, 0).None?;
  }

  lemma SproutClosed(a: Arena, n: Handle)
    requires Closed(a) && n < |a.store|
    ensures Closed(Sprout(a, n))
  {
    var b := Sprout(a, n);
    assert forall x :: 0 <= x < |b.store| ==> RecordIn(b.store[x], |b.store|);
  }

  /**
   * curAt(dst) on the tree, for `steps` = max(dst, 0): `steps` steps down the last-child
   * spine from `n`, giving a childless node on the way a fresh empty child.
   */
  function Descend(a: Arena, n: Handle, steps: nat): (r: (Arena, Handle))
    requires Closed(a) && n < |a.store|
    ensures Closed(r.0) && r.1 < |r.0.store|
    decreases steps
  {
    if steps == 0 then (a, n)
    else if a.store[n].sub == [] then
      SproutClosed(a, n);
      Descend(Sprout(a, n), |a.store|, steps - 1)
    else Descend(a, a.store[n].sub[|a.store[n].sub| - 1], steps - 1)
  }

  /** curAt walks exactly `steps` last-child steps. */
  lemma {:induction false} DescendWalks(a: Arena, n: Handle, steps: nat)
    requires Closed(a) && n < |a.store|
    ensures Walk(ToLeaf, Descend(a, n, steps).0.store, n, steps) == Some(Descend(a, n, steps).1)
    decreases steps
  {
    if steps > 0 {
      if a.store[n].sub == [] {
        SproutClosed(a, n);
        var a1 := Sprout(a, n);
        var k := |a.store|;
        DescendWalks(a1, k, steps - 1);
        DescendFrame(a1, k, steps - 1);
        var (b, h) := Descend(a1, k, steps - 1);
        assert Descend(a, n, steps) == (b, h);
        assert a1.store[n].sub == [k];
        assert b.store[n] == a1.store[n];
        assert Walk(ToLeaf, b.store, n, steps) == Walk(ToLeaf, b.store, k, steps - 1);
      } else {
        var m := a.store[n].sub[|a.store[n].sub| - 1];
        DescendWalks(a, m, steps - 1);
        DescendFrame(a, m, steps - 1);
        var (b, h) := Descend(a, m, steps - 1);
        assert Descend(a, n, steps) == (b, h);
        assert b.store[n] == a.store[n];
        assert Walk(ToLeaf, b.store, n, steps) == Walk(ToLeaf, b.store, m, steps - 1);
      }
    }
  }

  /** Where the spine is already `steps` deep, curAt creates nothing and only walks. */
  lemma {:induction false} DescendDeepSpine(a: Arena, n: Handle, steps: nat)
    requires Closed(a) && n < |a.store|
    requires Walk(ToLeaf, a.store, n, steps).Some?
    ensures Descend(a, n, steps) == (a, Walk(ToLeaf, a.store, n, steps).value)
    decreases steps
  {
    if steps > 0 {
      DescendDeepSpine(a, a.store[n].sub[|a.store[n].sub| - 1], steps - 1);
    }
  }

  /**
   * curAt changes only childless nodes, and only their children; it leaves the indexes
   * alone; the nodes it creates are empty placeholders appended to the bucket.
   */
  lemma {:induction false} DescendFrame(a: Arena, n: Handle, steps: nat)
    requires Closed(a) && n < |a.store|
    ensures var b := Descend(a, n, steps).0;
      && |a.store| <= |b.store| && b.nodes == a.nodes && b.urls == a.urls
      && |b.unk| == |a.unk| + |b.store| - |a.store| && b.unk[..|a.unk|] == a.unk
      && (forall x :: 0 <= x < |a.store| && a.store[x].sub != [] ==> b.store[x] == a.store[x])
      && (forall x :: 0 <= x < |a.store| ==> b.store[x] == a.store[x].(sub := b.store[x].sub))
      && (forall x :: |a.store| <= x < |b.store| ==> b.store[x].(sub := []) == Blank())
    decreases steps
  {
    if steps > 0 {
      if a.store[n].sub == [] {
        SproutClosed(a, n);
        var a1 := Sprout(a, n);
        DescendFrame(a1, |a.store|, steps - 1);
        var b := Descend(a1, |a.store|, steps - 1).0;
        assert Descend(a, n, steps).0 == b;
        assert a1.unk[..|a.unk|] == a.unk;
        assert b.unk[..|a.unk|] == b.unk[..|a1.unk|][..|a.unk|];
        assert b.store[|a.store|].(sub := []) == Blank();
      } else {
        var m := a.store[n].sub[|a.store[n].sub| - 1];
        DescendFrame(a, m, steps - 1);
      }
    }
  }

  /** The number of steps curAt(dst) takes. */
  function Steps(dst: int): nat
  {
    if dst < 0 then 0 else dst
  }

  /** curAt (markdown.go:108-118) from `root`. */
  method CurAt(tr: Tree, root: Handle, dst: int) returns (p: Handle)
    requires tr.Valid() && root < |tr.store|
    modifies tr
    ensures tr.Valid() && tr.root == old(tr.root)
    ensures (tr.Snapshot(), p) == Descend(old(tr.Snapshot()), root, Steps(dst))
  {
    var n: Handle := root;
    var lvl: int := 0;
    while lvl < dst
      invariant tr.Valid() && tr.root == old(tr.root)
      invariant DescendsTo(old(tr.Snapshot()), root, dst, tr.Snapshot(), n, lvl)
      decreases dst - lvl
    {
      hide Descend, Sprout;
      ghost var a := tr.Snapshot();
      DescendStep(old(tr.Snapshot()), root, dst, a, n, lvl);
      if tr.store[n].sub == [] {
        SproutAt(tr, n);
      }
      n := tr.store[n].sub[|tr.store[n].sub| - 1];
      lvl := lvl + 1;
    }
    p := n;
  }

  /** After `lvl` turns of curAt's loop from `root` in `a0`, the tree is `a` and the walk is at `n`. */
  ghost predicate DescendsTo(a0: Arena, root: Handle, dst: int, a: Arena, n: Handle, lvl: int)
    requires Closed(a0) && root < |a0.store|
  {
    && Closed(a) && n < |a.store| && 0 <= lvl && (dst >= 0 ==> lvl <= dst)
    && Descend(a0, root, Steps(dst)) == Descend(a, n, Steps(dst - lvl))
  }

  /** One turn of curAt: a childless node first gets its placeholder, then the walk takes the last child. */
  lemma DescendStep(a0: Arena, root: Handle, dst: int, a: Arena, n: Handle, lvl: int)
    requires Closed(a0) && root < |a0.store| && lvl < dst && DescendsTo(a0, root, dst, a, n, lvl)
    ensures var b := if a.store[n].sub == [] then Sprout(a, n) else a;
      && b.store[n].sub != []
      && DescendsTo(a0, root, dst, b, b.store[n].sub[|b.store[n].sub| - 1], lvl + 1)
  {
    if a.store[n].sub == [] {
      SproutClosed(a, n);
    }
  }

  /** markdown.go:111-113 on the tree: the childless node `n` gets a fresh empty node as its only child. */
  method SproutAt(tr: Tree, n: Handle)
    requires tr.Valid() && n < |tr.store| && tr.store[n].sub == []
    modifies tr
    ensures tr.Valid() && tr.root == old(tr.root)
    ensures tr.Snapshot() == Sprout(old(tr.Snapshot()), n)
  {
    ghost var a := tr.Snapshot();
    UpsertBlank(a);
    var k := tr.NewNode(Blank());
    tr.AddChild(n, [k]);
    assert AddChildren([], [k]) == [k];
  }

  // ---------------------------------------------------------------------------------
  // mdDoc2Tree (markdown.go:98-139)

  /** The node a heading stands for: its text without trailing colons as the title. */
  function HeadingRecord(n: MdNode): (r: Record)
    ensures r.(title := "") == Blank()
    ensures r.title != [] ==> r.title[|r.title| - 1] != ':'
  {
    match FirstText(n)
    case Some(t) => Blank().(title := TrimRightChar(t, ':'))
    case None => Blank()
  }

  /** Every paragraph of the document has a first child in each of its strong nodes. */
  predicate WellFormedDoc(doc: MdNode)
  {
    forall i :: 0 <= i < |doc.children| && doc.children[i].kind == ParagraphNode ==>
      StrongsHaveChild(doc.children[i].children)
  }

  /** curAt's placeholders are empty nodes in the bucket, so the registry invariants survive it. */
  lemma {:induction false} DescendKeepsInv(a: Arena, n: Handle, steps: nat)
    requires Inv(a) && n < |a.store|
    ensures Inv(Descend(a, n, steps).0) && |a.store| <= |Descend(a, n, steps).0.store|
    decreases steps
  {
    DescendFrame(a, n, steps);
    if steps > 0 {
      if a.store[n].sub == [] {
        var k := |a.store|;
        UpsertBlank(a);
        UpsertKeepsInv(a, Blank());
        var b := Upsert(a, Blank()).0;
        AttachKeepsInv(b, n, [k]);
        assert AddChildren([], [k]) == [k];
        assert Sprout(a, n) == Attach(b, n, [k]);
        DescendKeepsInv(Sprout(a, n), k, steps - 1);
      } else {
        DescendKeepsInv(a, a.store[n].sub[|a.store[n].sub| - 1], steps - 1);
      }
    }
  }

  /**
   * A heading of level L (markdown.go:121-127) on the tree: curAt(L-1) from `root`, then
   * the heading's node is upserted and added under the node curAt reached.
   */
  function HeadingStep(a: Arena, root: Handle, n: MdNode): (r: Arena)
    requires Inv(a) && root < |a.store|
    ensures Inv(r) && |a.store| <= |r.store|
  {
    var d := Descend(a, root, Steps(n.level - 1));
    DescendKeepsInv(a, root, Steps(n.level - 1));
    var u := Upsert(d.0, HeadingRecord(n));
    UpsertKeepsInv(d.0, HeadingRecord(n));
    AttachKeepsInv(u.0, d.1, [u.1]);
    Attach(u.0, d.1, [u.1])
  }

  /** The walk stops at step `k`, at a childless node. */
  predicate LeafAt(store: seq<Record>, n: Handle, k: nat)
  {
    var w := Walk(ToLeaf, store, n, k);
    w.Some? && store[w.value].sub == []
  }

  /** The walk down the last-child spine meets a childless node at one step count at most. */
  lemma LeafAtUnique(store: seq<Record>, n: Handle, j: nat, k: nat)
    requires LeafAt(store, n, j) && LeafAt(store, n, k)
    ensures j == k
  {
    if j < k {
      WalkAdd(ToLeaf, store, n, j, 1);
      WalkPrefix(ToLeaf, store, n, j + 1, k);
    } else if k < j {
      WalkAdd(ToLeaf, store, n, k, 1);
      WalkPrefix(ToLeaf, store, n, k + 1, j);
    }
  }

  /** The childless node cur() (markdown.go:100-107) stops at, from `n`; none when the spine never ends. */
  ghost function SpineLeaf(store: seq<Record>, n: Handle): (r: Option<Handle>)
    ensures r.Some? ==> exists k: nat :: LeafAt(store, n, k) && Walk(ToLeaf, store, n, k) == r
    ensures r.None? ==> forall k: nat :: !LeafAt(store, n, k)
  {
    if exists k: nat :: LeafAt(store, n, k) then
      var k: nat :| LeafAt(store, n, k);
      Walk(ToLeaf, store, n, k)
    else None
  }

  /** Wherever the walk meets a childless node, that node is the spine's leaf. */
  lemma SpineLeafAt(store: seq<Record>, n: Handle, k: nat)
    requires LeafAt(store, n, k)
    ensures SpineLeaf(store, n) == Walk(ToLeaf, store, n, k)
  {
    var j: nat :| LeafAt(store, n, j) && Walk(ToLeaf, store, n, j) == SpineLeaf(store, n);
    LeafAtUnique(store, n, j, k);
  }

  /** In a closed tree the spine has no leaf exactly when the walk down it goes on forever. */
  lemma SpineLeafForever(a: Arena, n: Handle)
    requires Closed(a) && n < |a.store|
    ensures SpineLeaf(a.store, n).None? <==> forall k: nat :: Walk(ToLeaf, a.store, n, k).Some?
  {
    if SpineLeaf(a.store, n).None? {
      forall k: nat ensures Walk(ToLeaf, a.store, n, k).Some? {
        NoLeafWalks(a, n, k);
      }
    } else {
      var k: nat :| LeafAt(a.store, n, k);
      WalkAdd(ToLeaf, a.store, n, k, 1);
    }
  }

  /** Without a childless node on the spine, the walk can take any number of steps. */
  lemma {:induction false} NoLeafWalks(a: Arena, n: Handle, k: nat)
    requires Closed(a) && n < |a.store| && forall j: nat :: !LeafAt(a.store, n, j)
    ensures Walk(ToLeaf, a.store, n, k).Some?
    decreases k
  {
    if k > 0 {
      NoLeafWalks(a, n, k - 1);
      WalkAdd(ToLeaf, a.store, n, k - 1, 1);
      var m := Walk(ToLeaf, a.store, n, k - 1).value;
      assert !LeafAt(a.store, n, k - 1);
      assert RecordIn(a.store[m], |a.store|);
    }
  }

  /** A paragraph (markdown.go:128-130) on the tree: its fields are filled into the leaf `c`. */
  function ParagraphStep(a: Arena, c: Handle, n: MdNode): (r: Arena)
    requires Inv(a) && c < |a.store| && StrongsHaveChild(n.children)
    ensures Inv(r) && |r.store| == |a.store|
  {
    ParDescFrame(a.store[c], n);
    PokeKeepsInv(a, c, ParDesc(a.store[c], n));
    Poke(a, c, ParDesc(a.store[c], n))
  }

  /** A list (markdown.go:131-133) on the tree: its items are built and added under the leaf `c`. */
  function ListStep(a: Arena, c: Handle, n: MdNode): (r: Arena)
    requires Inv(a) && c < |a.store|
    ensures Inv(r) && |a.store| <= |r.store|
  {
    var l := ListTree(a, n);
    AttachKeepsInv(l.0, c, l.1);
    Attach(l.0, c, l.1)
  }

  /**
   * One top-level node of the document on the tree (markdown.go:120-134): headings,
   * paragraphs and lists act, anything else is skipped; none when a paragraph or a list
   * finds no leaf because the spine never ends, where the Go loop does not terminate.
   */
  ghost function DocStep(a: Arena, root: Handle, n: MdNode): (r: Option<Arena>)
    requires Inv(a) && root < |a.store| && (n.kind == ParagraphNode ==> StrongsHaveChild(n.children))
    ensures r.Some? ==> Inv(r.value) && |a.store| <= |r.value.store|
  {
    if n.kind == HeadingNode then Some(HeadingStep(a, root, n))
    else if n.kind == ParagraphNode || n.kind == ListNode then
      var c := SpineLeaf(a.store, root);
      if c.None? then None
      else if n.kind == ParagraphNode then Some(ParagraphStep(a, c.value, n))
      else Some(ListStep(a, c.value, n))
    else Some(a)
  }

  /** The tree after the first `i` top-level nodes of the document, built from `a` under `root`. */
  ghost function DocFold(a: Arena, root: Handle, doc: MdNode, i: nat): (r: Option<Arena>)
    requires Inv(a) && root < |a.store| && WellFormedDoc(doc) && i <= |doc.children|
    ensures r.Some? ==> Inv(r.value) && |a.store| <= |r.value.store|
    decreases i
  {
    if i == 0 then Some(a)
    else
      var prev := DocFold(a, root, doc, i - 1);
      if prev.None? then None else DocStep(prev.value, root, doc.children[i - 1])
  }

  /** Once a step has found an endless spine, so do all later prefixes of the document. */
  lemma {:induction false} DocFoldStaysNone(a: Arena, root: Handle, doc: MdNode, i: nat, j: nat)
    requires Inv(a) && root < |a.store| && WellFormedDoc(doc) && i <= j <= |doc.children|
    requires DocFold(a, root, doc, i).None?
    ensures DocFold(a, root, doc, j).None?
    decreases j
  {
    hide DocStep, Inv, Closed;
    if i < j {
      DocFoldStaysNone(a, root, doc, i, j - 1);
    }
  }

  /**
   * The document fails to build only at a paragraph or a list whose spine, in the tree
   * built so far, goes on forever.
   */
  lemma {:induction false} DocFoldStops(a: Arena, root: Handle, doc: MdNode, i: nat) returns (j: nat)
    requires Inv(a) && root < |a.store| && WellFormedDoc(doc) && i <= |doc.children|
    requires DocFold(a, root, doc, i).None?
    ensures j < i && DocFold(a, root, doc, j).Some?
    ensures doc.children[j].kind == ParagraphNode || doc.children[j].kind == ListNode
    ensures forall k: nat :: Walk(ToLeaf, DocFold(a, root, doc, j).value.store, root, k).Some?
    decreases i
  {
    hide HeadingStep, ParagraphStep, ListStep, ListTree, Upsert, Descend;
    if DocFold(a, root, doc, i - 1).None? {
      hide Inv, Closed;
      j := DocFoldStops(a, root, doc, i - 1);
    } else {
      j := i - 1;
      var b := DocFold(a, root, doc, j).value;
      SpineLeafForever(b, root);
    }
  }

  /**
   * A heading of level L (markdown.go:121-127): its node is upserted and added under the
   * node L-1 steps down the spine from `root`.
   */
  method AddHeading(tr: Tree, root: Handle, n: MdNode)
    requires tr.Valid() && root < |tr.store|
    modifies tr
    ensures tr.Valid() && tr.root == old(tr.root)
    ensures tr.Snapshot() == HeadingStep(old(tr.Snapshot()), root, n)
  {
    DescendFrame(tr.Snapshot(), root, Steps(n.level - 1));
    var par := CurAt(tr, root, n.level - 1);
    var nd := HeadingRecord(n);
    var h := tr.NewNode(nd);
    tr.AddChild(par, [h]);
  }

  /** A paragraph (markdown.go:128-130) fills in the fields of the deepest spine node. */
  method AddParagraph(tr: Tree, root: Handle, n: MdNode) returns (c: Option<Handle>)
    requires tr.Valid() && root < |tr.store| && StrongsHaveChild(n.children)
    modifies tr
    ensures tr.Valid() && tr.root == old(tr.root)
    ensures c == SpineLeaf(old(tr.store), root)
    ensures c.Some? ==>
      && c.value < |old(tr.store)| && old(tr.store)[c.value].sub == []
      && (exists lvl: nat :: Walk(ToLeaf, old(tr.store), root, lvl) == c)
      && tr.store == old(tr.store)[c.value := ParDesc(old(tr.store)[c.value], n)]
      && tr.Snapshot() == ParagraphStep(old(tr.Snapshot()), c.value, n)
    ensures c.None? ==>
      && tr.Snapshot() == old(tr.Snapshot())
      && forall k: nat :: Walk(ToLeaf, tr.store, root, k).Some?
  {
    var lvl;
    c, lvl := Cur(tr, root);
    if c.Some? {
      var r := ParToDesc(tr.store[c.value], n);
      ParDescFrame(tr.store[c.value], n);
      tr.Put(c.value, r);
    }
  }

  /** A list (markdown.go:131-133): its items become children of the deepest spine node. */
  method AddList(tr: Tree, root: Handle, n: MdNode) returns (c: Option<Handle>, hs: seq<Handle>)
    requires tr.Valid() && root < |tr.store|
    modifies tr
    ensures tr.Valid() && tr.root == old(tr.root) && |old(tr.store)| <= |tr.store|
    ensures c == SpineLeaf(old(tr.store), root)
    ensures c.Some? ==>
      && c.value < |old(tr.store)| && old(tr.store)[c.value].sub == []
      && (exists lvl: nat :: Walk(ToLeaf, old(tr.store), root, lvl) == c)
      && |hs| == ItemCount(n.children) && (forall x :: x in hs ==> x in tr.store[c.value].sub)
      && hs == ListTree(old(tr.Snapshot()), n).1
      && tr.Snapshot() == ListStep(old(tr.Snapshot()), c.value, n)
    ensures c.None? ==>
      && tr.Snapshot() == old(tr.Snapshot())
      && forall k: nat :: Walk(ToLeaf, tr.store, root, k).Some?
  {
    var lvl;
    c, lvl := Cur(tr, root);
    hs := [];
    if c.Some? {
      hs := ListToTree(tr, n);
      AddChildrenSpec(tr.store[c.value].sub, hs);
      tr.AddChild(c.value, hs);
    }
  }

  /** One more top-level node: its step on the tree built so far. */
  lemma DocFoldSnoc(a: Arena, root: Handle, doc: MdNode, i: nat)
    requires Inv(a) && root < |a.store| && WellFormedDoc(doc) && i < |doc.children|
    ensures DocFold(a, root, doc, i + 1)
      == if DocFold(a, root, doc, i).None? then None else DocStep(DocFold(a, root, doc, i).value, root, doc.children[i])
  {
  }

  /**
   * The switch of markdown.go:120-134 on one top-level node; false where cur() would
   * not return, with the tree untouched.
   */
  method AddBlock(tr: Tree, root: Handle, n: MdNode) returns (ok: bool)
    requires tr.Valid() && root < |tr.store| && (n.kind == ParagraphNode ==> StrongsHaveChild(n.children))
    modifies tr
    ensures tr.Valid() && tr.root == old(tr.root)
    ensures ok <==> DocStep(old(tr.Snapshot()), root, n).Some?
    ensures ok ==> DocStep(old(tr.Snapshot()), root, n) == Some(tr.Snapshot())
  {
    ok := true;
    if n.kind == HeadingNode {
      AddHeading(tr, root, n);
    } else if n.kind == ParagraphNode {
      var c := AddParagraph(tr, root, n);
      ok := c.Some?;
    } else if n.kind == ListNode {
      var c, _ := AddList(tr, root, n);
      ok := c.Some?;
    }
  }

  /**
   * mdDoc2Tree's loop over the document (markdown.go:119-135): the tree is the fold of
   * the steps over the top-level nodes; false where cur() would not return.
   */
  method AddBlocks(tr: Tree, doc: MdNode) returns (ok: bool)
    requires tr.Valid() && WellFormedDoc(doc)
    modifies tr
    ensures tr.Valid() && tr.root == old(tr.root)
    ensures ok <==> DocFold(old(tr.Snapshot()), old(tr.root), doc, |doc.children|).Some?
    ensures ok ==> DocFold(old(tr.Snapshot()), old(tr.root), doc, |doc.children|) == Some(tr.Snapshot())
  {
    hide DocStep, Inv, Closed, WellFormedDoc;
    ghost var a0 := tr.Snapshot();
    var root := tr.root;
    var i := 0;
    while i < |doc.children|
      invariant tr.Valid() && tr.root == root
      invariant BlocksDone(a0, root, doc, i, tr.Snapshot())
    {
      BlockTurn(a0, root, doc, i, tr.Snapshot());
      hide BlocksDone, DocFold;
      var done := AddBlock(tr, root, doc.children[i]);
      if !done {
        return false;
      }
      i := i + 1;
    }
    return true;
  }

  /** After the first `i` top-level nodes of `doc`, the tree built from `a0` is `a`. */
  ghost predicate BlocksDone(a0: Arena, root: Handle, doc: MdNode, i: nat, a: Arena)
  {
    Inv(a0) && root < |a0.store| && WellFormedDoc(doc) && i <= |doc.children|
    && DocFold(a0, root, doc, i) == Some(a)
  }

  /** One turn of mdDoc2Tree's loop: the step either extends the fold or ends it for good. */
  lemma BlockTurn(a0: Arena, root: Handle, doc: MdNode, i: nat, a: Arena)
    requires BlocksDone(a0, root, doc, i, a) && i < |doc.children|
    ensures Inv(a) && root < |a.store|
    ensures doc.children[i].kind == ParagraphNode ==> StrongsHaveChild(doc.children[i].children)
    ensures DocStep(a, root, doc.children[i]).Some? ==>
      BlocksDone(a0, root, doc, i + 1, DocStep(a, root, doc.children[i]).value)
    ensures DocStep(a, root, doc.children[i]).None? ==> DocFold(a0, root, doc, |doc.children|).None?
  {
    DocFoldSnoc(a0, root, doc, i);
    if DocStep(a, root, doc.children[i]).None? {
      DocFoldStaysNone(a0, root, doc, i + 1, |doc.children|);
    }
  }

  /**
   * mdDoc2Tree (markdown.go:98-139): the blocks in document order, then the root
   * collapse. The tree is the fold of the steps over the document; the root is where
   * the collapse walk from the old root stops. `ok` is false where the Go code would
   * loop forever on an endless spine.
   */
  method DocToTree(tr: Tree, doc: MdNode) returns (ok: bool)
    requires tr.Valid() && WellFormedDoc(doc)
    modifies tr
    ensures tr.Valid()
    ensures ok ==>
      && DocFold(old(tr.Snapshot()), old(tr.root), doc, |doc.children|) == Some(tr.Snapshot())
      && (exists steps: nat :: Walk(Collapse, tr.store, old(tr.root), steps) == Some(tr.root))
      && !Goes(Collapse, tr.store[tr.root])
    ensures !ok ==>
      var built := DocFold(old(tr.Snapshot()), old(tr.root), doc, |doc.children|);
      built.None? || forall k: nat :: Walk(Collapse, built.value.store, old(tr.root), k).Some?
  {
    ok := AddBlocks(tr, doc);
    if ok {
      var steps;
      ok, steps := CollapseRoot(tr);
    }
  }

  // ---------------------------------------------------------------------------------
  // An example document

  function TextOf(t: string): MdNode
  {
    MdNode(TextNode, t, 0, "", "", [])
  }

  function HeadingOf(level: int, t: string): MdNode
  {
    MdNode(HeadingNode, "", level, "", "", [TextOf(t)])
  }

  function ParagraphOf(t: string): MdNode
  {
    MdNode(ParagraphNode, "", 0, "", "", [TextOf(t)])
  }

  /**
   * The `basic` case of markdown_test.go without its `## Level 2:` section: `# Root`,
   * `Some description`, `## Level 2.2`, `##### Level 5`, `## Level 2.3` and its task list.
   */
  function ExampleDoc(): MdNode
  {
    MdNode(DocumentNode, "", 0, "", "", [HeadingOf(1, "Root"), ParagraphOf("Some description"),
                                         HeadingOf(2, "Level 2.2"), HeadingOf(5, "Level 5"),
                                         HeadingOf(2, "Level 2.3"), ExampleList()])
  }

  /** `- [ ] sub 2.3.1`, `- [x] sub 2.3.2` and, nested under it, `- [x] sub 2.3.2.1`. */
  function ExampleList(): MdNode
  {
    ListOf([ItemOf(Box(' ', "sub 2.3.1"), []),
            ItemOf(Box('x', "sub 2.3.2"), [ListOf([ItemOf(Box('x', "sub 2.3.2.1"), [])])])])
  }

  function Titled(t: string, sub: seq<Handle>): Record
  {
    Blank().(title := t, sub := sub)
  }

  /**
   * The tree of ExampleDoc before the root collapse: NewTree's root, one node per heading,
   * two placeholders, then the task items, the nested one before its parent.
   */
  function ExampleStore(): seq<Record>
  {
    [Titled("", [1]), Titled("Root", [2, 6]).(desc := "Some description"), Titled("Level 2.2", [3]),
     Titled("", [4]), Titled("", [5]), Titled("Level 5", []), Titled("Level 2.3", [7, 9]),
     BoxRecord(' ', "sub 2.3.1", []), BoxRecord('x', "sub 2.3.2.1", []), BoxRecord('x', "sub 2.3.2", [8])]
  }

  /** The tree after the first `i` blocks of ExampleDoc, from NewTree. */
  function ExampleState(i: nat): Arena
  {
    if i == 0 then Arena([Blank()], map[], map[], [])
    else if i == 1 then Arena([Titled("", [1]), Titled("Root", [])], map[], map[], [1])
    else if i == 2 then Arena([Titled("", [1]), Titled("Root", []).(desc := "Some description")], map[], map[], [1])
    else if i == 3 then
      Arena([Titled("", [1]), Titled("Root", [2]).(desc := "Some description"), Titled("Level 2.2", [])], map[], map[], [1, 2])
    else if i == 4 then
      Arena([Titled("", [1]), Titled("Root", [2]).(desc := "Some description"), Titled("Level 2.2", [3]),
             Titled("", [4]), Titled("", [5]), Titled("Level 5", [])], map[], map[], [1, 2, 3, 4, 5])
    else if i == 5 then
      Arena([Titled("", [1]), Titled("Root", [2, 6]).(desc := "Some description"), Titled("Level 2.2", [3]),
             Titled("", [4]), Titled("", [5]), Titled("Level 5", []), Titled("Level 2.3", [])],
            map[], map[], [1, 2, 3, 4, 5, 6])
    else Arena(ExampleStore(), map[], map[], [1, 2, 3, 4, 5, 6, 7, 8, 9])
  }

  function Leaf(t: string, sub: seq<Goal>): Goal
  {
    Goal(Blank<Goal>().(title := t, sub := sub))
  }

  function Done(t: string, sub: seq<Goal>): Goal
  {
    Goal(Blank<Goal>().(title := t, progress := Some(Progress(1, 1)), sub := sub))
  }

  /**
   * The expected tree of markdown_test.go for this part: Level 5 two placeholders below
   * Level 2.2, and the checked items done.
   */
  function ExampleGoal(): Goal
  {
    Goal(Blank<Goal>().(title := "Root", desc := "Some description",
                        sub := [Leaf("Level 2.2", [Leaf("", [Leaf("", [Leaf("Level 5", [])])])]),
                                Leaf("Level 2.3", [Leaf("sub 2.3.1", []), Done("sub 2.3.2", [Done("sub 2.3.2.1", [])])])]))
  }

  lemma ExampleStep1()
    ensures Inv(ExampleState(0))
    ensures HeadingStep(ExampleState(0), 0, HeadingOf(1, "Root")) == ExampleState(1)
  {
    var a0 := Arena([Blank()], map[], map[], []);
    assert a0 == ExampleState(0);
    var nd := Titled("Root", []);
    assert HeadingRecord(HeadingOf(1, "Root")) == nd;
    assert Descend(a0, 0, Steps(0)) == (a0, 0);
    var a2 := Create(a0, nd);
    assert a2 == a0.(store := [Blank(), nd]);
    assert FirstWeak(a2, nd, 0).None?;
    assert Settle(a2, nd, 1, None) == a2.(unk := [1]);
    assert Upsert(a0, nd) == (a2.(unk := [1]), 1);
    assert AddChildren([], [1]) == [1];
  }

  lemma ExampleLeaf()
    ensures Inv(ExampleState(1))
    ensures SpineLeaf(ExampleState(1).store, 0) == Some(1)
  {
    var store := [Titled("", [1]), Titled("Root", [])];
    assert store == ExampleState(1).store;
    hide ExampleState;
    assert Walk(ToLeaf, store, 1, 0) == Some(1);
    assert Walk(ToLeaf, store, 0, 1) == Some(1);
    SpineLeafAt(store, 0, 1);
  }

  lemma ExampleDesc()
    ensures ParDesc(Titled("Root", []), ParagraphOf("Some description")) == Titled("Root", []).(desc := "Some description")
  {
    var t := "Some description";
    var ch := ParagraphOf(t).children;
    var nd := Titled("Root", []);
    ExampleTextFirst(t, nd);
    TrimSpaceTrimmed(t);
    ExampleTextLast(t, nd);
    hide ParFrom, TrimSpace;
  }

  lemma ExampleTextFirst(t: string, nd: Record)
    ensures ParFrom(ParagraphOf(t).children, 0, nd, "") == ParFrom(ParagraphOf(t).children, 1, nd, TrimSpace(t))
  {
  }

  lemma ExampleTextLast(t: string, nd: Record)
    ensures ParFrom(ParagraphOf(t).children, 1, nd, t) == (nd, t)
  {
  }

  lemma ExampleStep2()
    ensures ParagraphStep(ExampleState(1), 1, ParagraphOf("Some description")) == ExampleState(2)
  {
    ExampleDesc();
    var a1 := Arena([Titled("", [1]), Titled("Root", [])], map[], map[], [1]);
    assert a1 == ExampleState(1);
    hide ParDesc;
  }

  lemma ExampleStep3()
    ensures Inv(ExampleState(2))
    ensures HeadingStep(ExampleState(2), 0, HeadingOf(2, "Level 2.2")) == ExampleState(3)
  {
    var a := Arena([Titled("", [1]), Titled("Root", []).(desc := "Some description")], map[], map[], [1]);
    assert a == ExampleState(2);
    var nd := Titled("Level 2.2", []);
    assert HeadingRecord(HeadingOf(2, "Level 2.2")) == nd;
    assert Descend(a, 0, Steps(1)) == (a, 1);
    assert !WeakMatch(nd, a.store[1]);
    UpsertFresh(a, nd);
    var u := a.(store := a.store + [nd], unk := [1, 2]);
    assert AddChildren([], [2]) == [2];
    assert Attach(u, 1, [2]) == ExampleState(3);
  }

  lemma ExampleStep4()
    ensures Inv(ExampleState(3))
    ensures HeadingStep(ExampleState(3), 0, HeadingOf(5, "Level 5")) == ExampleState(4)
  {
    var a := ExampleState(3);
    var nd := Titled("Level 5", []);
    assert HeadingRecord(HeadingOf(5, "Level 5")) == nd;
    ExampleDescend();
    var d := ExampleSprouted();
    assert forall i :: 0 <= i < |d.unk| ==> d.unk[i] in {1, 2, 3, 4};
    assert !WeakMatch(nd, d.store[1]) && !WeakMatch(nd, d.store[2]) && !WeakMatch(nd, d.store[3]) && !WeakMatch(nd, d.store[4]);
    UpsertFresh(d, nd);
    var u := d.(store := d.store + [nd], unk := [1, 2, 3, 4, 5]);
    assert AddChildren([], [5]) == [5];
    assert Attach(u, 4, [5]) == ExampleState(4);
  }

  /** ExampleState(3) with the two placeholders of `#####` under `##`. */
  function ExampleSprouted(): Arena
  {
    Arena([Titled("", [1]), Titled("Root", [2]).(desc := "Some description"), Titled("Level 2.2", [3]),
           Titled("", [4]), Titled("", [])], map[], map[], [1, 2, 3, 4])
  }

  lemma ExampleDescend()
    ensures Descend(ExampleState(3), 0, Steps(4)) == (ExampleSprouted(), 4)
  {
    var a := ExampleState(3);
    var b := Arena([Titled("", [1]), Titled("Root", [2]).(desc := "Some description"), Titled("Level 2.2", [3]),
                    Titled("", [])], map[], map[], [1, 2, 3]);
    assert Sprout(a, 2) == b;
    assert Sprout(b, 3) == ExampleSprouted();
    hide Sprout;
    assert Descend(a, 2, 2) == Descend(b, 3, 1);
    assert Descend(a, 0, 4) == Descend(a, 1, 3) == Descend(a, 2, 2);
  }

  function ListOf(items: seq<MdNode>): MdNode
  {
    MdNode(ListNode, "", 0, "", "", items)
  }

  function ItemOf(t: string, rest: seq<MdNode>): MdNode
  {
    MdNode(ItemNode, "", 0, "", "", [ParagraphOf(t)] + rest)
  }

  /** `[<mark>] <t>`: a task-list line. */
  function Box(mark: char, t: string): string
  {
    ['[', mark, ']', ' '] + t
  }

  /** The node of a task item: titled, and done when its box is checked. */
  function BoxRecord(mark: char, t: string, sub: seq<Handle>): Record
  {
    if IsSpace(mark) then Titled(t, sub) else Titled(t, sub).(progress := Some(Progress(1, 1)))
  }

  /** A title that parseTitle keeps as it is. */
  predicate PlainTrimmed(t: string)
  {
    Plain(t) && t != [] && !IsSpace(t[0]) && !IsSpace(t[|t| - 1])
  }

  /** No stored node has title `t`. */
  predicate NewTitle(a: Arena, t: string)
  {
    forall h :: 0 <= h < |a.store| ==> a.store[h].title != t
  }

  /** A node with neither id nor url, whose title no stored node has, is added to the bucket. */
  lemma UpsertNewTitle(a: Arena, nd: Record)
    requires Inv(a) && RecordIn(nd, |a.store|) && nd.id == "" && nd.link.url == ""
    requires NewTitle(a, nd.title)
    ensures Upsert(a, nd) == (a.(store := a.store + [nd], unk := a.unk + [|a.store|]), |a.store|)
  {
    UpsertFresh(a, nd);
  }

  /** A task-list paragraph with a plain title gives the item its title, and its progress when checked. */
  lemma BoxParagraph(mark: char, t: string)
    requires PlainTrimmed(t)
    ensures ItemStep(Blank(), ParagraphOf(Box(mark, t))) == BoxRecord(mark, t, [])
  {
    hide SplitTitle, TrimSpace, Plain;
    var s := Box(mark, t);
    assert s[4..] == t;
    TrimSpaceTrimmed(t);
    PlainTitle(t);
    assert IsSpace(s[3]) by { assert s[3] == ' '; }
    assert Checkbox(s) == (t, !IsSpace(mark));
  }

  /** A task item without a nested list becomes one new node. */
  lemma BoxItem(a: Arena, mark: char, t: string)
    requires Inv(a) && PlainTrimmed(t) && NewTitle(a, t)
    ensures ItemTree(a, ItemOf(Box(mark, t), [])) ==
      (a.(store := a.store + [BoxRecord(mark, t, [])], unk := a.unk + [|a.store|]), |a.store|)
  {
    var item := ItemOf(Box(mark, t), []);
    BoxParagraph(mark, t);
    assert ItemLoop(a, item, 1) == (a, BoxRecord(mark, t, []));
    UpsertNewTitle(a, BoxRecord(mark, t, []));
  }

  /** A task item with one nested list becomes a new node over that list's nodes. */
  lemma BoxItemOver(a: Arena, mark: char, t: string, l: MdNode, b: Arena, hs: seq<Handle>)
    requires Inv(a) && PlainTrimmed(t) && l.kind == ListNode && ListTree(a, l) == (b, hs) && NewTitle(b, t)
    ensures ItemTree(a, ItemOf(Box(mark, t), [l])) ==
      (b.(store := b.store + [BoxRecord(mark, t, hs)], unk := b.unk + [|b.store|]), |b.store|)
  {
    var item := ItemOf(Box(mark, t), [l]);
    BoxParagraph(mark, t);
    assert ItemLoop(a, item, 1) == (a, BoxRecord(mark, t, []));
    assert ItemLoop(a, item, 2) == (b, BoxRecord(mark, t, hs));
    UpsertNewTitle(b, BoxRecord(mark, t, hs));
  }

  /** One more child of the list: an item adds its node, anything else is skipped. */
  lemma ListLoopSnoc(a: Arena, list: MdNode, i: nat)
    requires Inv(a) && i < |list.children|
    ensures ListLoop(a, list, 0) == (a, [])
    ensures var prev := ListLoop(a, list, i);
      var n := list.children[i];
      && (n.kind == ItemNode ==> ListLoop(a, list, i + 1) == (ItemTree(prev.0, n).0, prev.1 + [ItemTree(prev.0, n).1]))
      && (n.kind != ItemNode ==> ListLoop(a, list, i + 1) == prev)
  {
  }

  /** A list of one item is that item's node. */
  lemma ListOfOne(a: Arena, l: MdNode, b: Arena, h1: Handle)
    requires Inv(a) && |l.children| == 1 && l.children[0].kind == ItemNode && ItemTree(a, l.children[0]) == (b, h1)
    ensures ListTree(a, l) == (b, [h1])
  {
    ListLoopSnoc(a, l, 0);
    hide ListLoop, ItemTree, Inv;
    assert ListLoop(a, l, 1) == (b, [] + [h1]);
    assert [] + [h1] == [h1];
  }

  /** A list of two items builds the first, then the second on the tree the first left. */
  lemma ListOfTwo(a: Arena, l: MdNode, b: Arena, h1: Handle, c: Arena, h2: Handle)
    requires Inv(a) && |l.children| == 2 && l.children[0].kind == ItemNode && l.children[1].kind == ItemNode
    requires ItemTree(a, l.children[0]) == (b, h1) && ItemTree(b, l.children[1]) == (c, h2)
    ensures ListTree(a, l) == (c, [h1, h2])
  {
    ListLoopSnoc(a, l, 0);
    ListLoopSnoc(a, l, 1);
    hide ListLoop, ItemTree, Inv;
    assert ListLoop(a, l, 1) == (b, [] + [h1]);
    assert [] + [h1] == [h1];
    assert ListLoop(a, l, 2) == (c, [h1] + [h2]);
    assert [h1] + [h2] == [h1, h2];
  }

  lemma ExampleStep5()
    ensures Inv(ExampleState(4))
    ensures HeadingStep(ExampleState(4), 0, HeadingOf(2, "Level 2.3")) == ExampleState(5)
  {
    hide ExampleState, Upsert, Descend, Attach, Inv, NewTitle;
    ExampleStep4();
    var a := ExampleState(4);
    var nd := Titled("Level 2.3", []);
    ExampleDescend5();
    ExampleNewTitle5();
    UpsertNewTitle(a, nd);
    ExampleAttach5();
    assert HeadingRecord(HeadingOf(2, "Level 2.3")) == nd;
  }

  lemma ExampleDescend5()
    ensures Descend(ExampleState(4), 0, Steps(1)) == (ExampleState(4), 1)
  {
  }

  lemma ExampleNewTitle5()
    ensures NewTitle(ExampleState(4), "Level 2.3") && |ExampleState(4).store| == 6
  {
  }

  lemma ExampleAttach5()
    ensures var a := ExampleState(4);
      Attach(a.(store := a.store + [Titled("Level 2.3", [])], unk := a.unk + [|a.store|]), 1, [6]) == ExampleState(5)
  {
    assert AddChildren([2], [6]) == [2, 6];
  }

  lemma ExampleLeaf6()
    ensures Inv(ExampleState(5))
    ensures SpineLeaf(ExampleState(5).store, 0) == Some(6)
  {
    var store := [Titled("", [1]), Titled("Root", [2, 6]).(desc := "Some description"), Titled("Level 2.2", [3]),
                  Titled("", [4]), Titled("", [5]), Titled("Level 5", []), Titled("Level 2.3", [])];
    assert store == ExampleState(5).store;
    hide ExampleState;
    assert Walk(ToLeaf, store, 6, 0) == Some(6);
    assert Walk(ToLeaf, store, 1, 1) == Some(6);
    assert Walk(ToLeaf, store, 0, 2) == Some(6);
    SpineLeafAt(store, 0, 2);
  }

  /** The task list builds the first item, then the nested item, then the second item over it. */
  lemma ExampleItems()
    ensures var a := ExampleState(5);
      var a7 := a.(store := a.store + [BoxRecord(' ', "sub 2.3.1", [])], unk := a.unk + [7]);
      var a8 := a7.(store := a7.store + [BoxRecord('x', "sub 2.3.2.1", [])], unk := a7.unk + [8]);
      var a9 := a8.(store := a8.store + [BoxRecord('x', "sub 2.3.2", [8])], unk := a8.unk + [9]);
      ListTree(a, ExampleList()) == (a9, [7, 9])
  {
    hide ExampleState, BoxRecord, Inv, ItemTree, ListTree, NewTitle, PlainTrimmed, Box;
    var a := ExampleState(5);
    ExampleLeaf6();
    var a7 := a.(store := a.store + [BoxRecord(' ', "sub 2.3.1", [])], unk := a.unk + [7]);
    var a8 := a7.(store := a7.store + [BoxRecord('x', "sub 2.3.2.1", [])], unk := a7.unk + [8]);
    var a9 := a8.(store := a8.store + [BoxRecord('x', "sub 2.3.2", [8])], unk := a8.unk + [9]);
    var inner := ListOf([ItemOf(Box('x', "sub 2.3.2.1"), [])]);
    ExampleTitles();
    BoxItem(a, ' ', "sub 2.3.1");
    BoxItem(a7, 'x', "sub 2.3.2.1");
    ListOfOne(a7, inner, a8, 8);
    BoxItemOver(a7, 'x', "sub 2.3.2", inner, a8, [8]);
    ListOfTwo(a, ExampleList(), a7, 7, a9, 9);
  }

  /** The item titles are plain and new to the tree each item is built on. */
  lemma ExampleTitles()
    ensures PlainTrimmed("sub 2.3.1") && PlainTrimmed("sub 2.3.2.1") && PlainTrimmed("sub 2.3.2")
    ensures |ExampleState(5).store| == 7
    ensures var a := ExampleState(5);
      var a7 := a.(store := a.store + [BoxRecord(' ', "sub 2.3.1", [])], unk := a.unk + [7]);
      var a8 := a7.(store := a7.store + [BoxRecord('x', "sub 2.3.2.1", [])], unk := a7.unk + [8]);
      && NewTitle(a, "sub 2.3.1") && NewTitle(a7, "sub 2.3.2.1") && NewTitle(a8, "sub 2.3.2")
  {
  }

  lemma ExampleStep6()
    ensures ListStep(ExampleState(5), 6, ExampleList()) == ExampleState(6)
  {
    hide ExampleState, ListTree, Attach, Inv, BoxRecord;
    ExampleLeaf6();
    ExampleItems();
    ExampleAttach6();
  }

  lemma ExampleAttach6()
    ensures var a := ExampleState(5);
      var a7 := a.(store := a.store + [BoxRecord(' ', "sub 2.3.1", [])], unk := a.unk + [7]);
      var a8 := a7.(store := a7.store + [BoxRecord('x', "sub 2.3.2.1", [])], unk := a7.unk + [8]);
      var a9 := a8.(store := a8.store + [BoxRecord('x', "sub 2.3.2", [8])], unk := a8.unk + [9]);
      Attach(a9, 6, [7, 9]) == ExampleState(6)
  {
    var a := ExampleState(5);
    var a9 := Arena(ExampleStore()[6 := Titled("Level 2.3", [])], map[], map[], [1, 2, 3, 4, 5, 6, 7, 8, 9]);
    assert a9 == a.(store := a.store + [BoxRecord(' ', "sub 2.3.1", []), BoxRecord('x', "sub 2.3.2.1", []),
                                        BoxRecord('x', "sub 2.3.2", [8])], unk := a.unk + [7, 8, 9]);
    assert AddChildren([], [7, 9]) == [7, 9];
  }

  /** Each block of ExampleDoc takes the tree from one state to the next. */
  lemma ExampleStepAt(i: nat)
    requires i < 6
    ensures Inv(ExampleState(i))
    ensures DocStep(ExampleState(i), 0, ExampleDoc().children[i]) == Some(ExampleState(i + 1))
  {
    var doc := ExampleDoc();
    hide HeadingStep, ParagraphStep, SpineLeaf, ExampleState, Inv, ListStep;
    if i == 0 {
      ExampleStep1();
      assert doc.children[0] == HeadingOf(1, "Root");
    } else if i == 1 {
      ExampleLeaf();
      ExampleStep2();
      assert doc.children[1] == ParagraphOf("Some description");
    } else if i == 2 {
      ExampleStep3();
      assert doc.children[2] == HeadingOf(2, "Level 2.2");
    } else if i == 3 {
      ExampleStep4();
      assert doc.children[3] == HeadingOf(5, "Level 5");
    } else if i == 4 {
      ExampleStep5();
      assert doc.children[4] == HeadingOf(2, "Level 2.3");
    } else {
      ExampleLeaf6();
      ExampleStep6();
      assert doc.children[5] == ExampleList();
    }
  }

  /**
   * Folding ExampleDoc over a new tree: the headings nest by level, the paragraph
   * describes the heading before it, `#####` under `##` gets two placeholders, and the
   * task list hangs under the heading before it.
   */
  lemma {:induction false} DocExample(i: nat)
    requires i <= 6
    ensures DocFold(ExampleState(0), 0, ExampleDoc(), i) == Some(ExampleState(i))
  {
    ExampleStepAt(0);
    assert WellFormedDoc(ExampleDoc()) && |ExampleDoc().children| == 6;
    hide DocFold, DocStep, ExampleState, ExampleDoc, Inv, WellFormedDoc;
    if i > 0 {
      DocExample(i - 1);
      ExampleStepAt(i - 1);
      DocFoldSnoc(ExampleState(0), 0, ExampleDoc(), i - 1);
    }
  }

  /** The root collapse on ExampleStore stops at the `Root` heading, which unfolds to the expected tree. */
  lemma ExampleCollapse(steps: nat, r: Handle)
    requires Walk(Collapse, ExampleStore(), 0, steps) == Some(r) && !Goes(Collapse, ExampleStore()[r])
    ensures r == 1 && Unfold(ExampleStore(), r, 5) == Some(ExampleGoal())
  {
    var S := ExampleStore();
    if steps >= 2 {
      WalkPrefix(Collapse, S, 0, 2, steps);
    }
    ExampleUnfold();
  }

  lemma ExampleUnfold()
    ensures Unfold(ExampleStore(), 1, 5) == Some(ExampleGoal())
  {
    hide Unfold, UnfoldAll;
    ExampleUnfoldLeft();
    ExampleUnfoldRight();
    UnfoldOver(ExampleStore(), 1, 5, ExampleGoal().node.sub);
  }

  lemma ExampleUnfoldLeft()
    ensures Unfold(ExampleStore(), 2, 4) == Some(ExampleGoal().node.sub[0])
  {
    hide Unfold, UnfoldAll;
    var S := ExampleStore();
    var g5 := Leaf("Level 5", []);
    var g4 := Leaf("", [g5]);
    var g3 := Leaf("", [g4]);
    UnfoldOver(S, 5, 1, []);
    UnfoldOver(S, 4, 2, [g5]);
    UnfoldOver(S, 3, 3, [g4]);
    UnfoldOver(S, 2, 4, [g3]);
  }

  lemma ExampleUnfoldRight()
    ensures Unfold(ExampleStore(), 6, 4) == Some(ExampleGoal().node.sub[1])
  {
    hide Unfold, UnfoldAll;
    var S := ExampleStore();
    var g7 := Leaf("sub 2.3.1", []);
    var g8 := Done("sub 2.3.2.1", []);
    var g9 := Done("sub 2.3.2", [g8]);
    UnfoldOver(S, 8, 2, []);
    UnfoldOver(S, 9, 3, [g8]);
    UnfoldOver(S, 7, 3, []);
    UnfoldOver(S, 6, 4, [g7, g9]);
  }

  lemma ExampleFacts()
    ensures WellFormedDoc(ExampleDoc()) && |ExampleDoc().children| == 6
    ensures ExampleState(6).store == ExampleStore()
    ensures Walk(Collapse, ExampleStore(), 0, 2).None?
  {
    assert ExampleDoc().children[1] == ParagraphOf("Some description");
  }

  /** ParseMDTree on the example: the tree built and collapsed is the expected one. */
  method ParseExample() returns (ok: bool, g: Option<Goal>)
    ensures ok && g == Some(ExampleGoal())
  {
    var tr := new Tree();
    assert tr.Snapshot() == ExampleState(0);
    DocExample(6);
    ExampleFacts();
    hide DocFold, ExampleState, ExampleDoc, WellFormedDoc, Walk, ExampleStore, Unfold;
    ok := DocToTree(tr, ExampleDoc());
    var steps: nat :| Walk(Collapse, tr.store, 0, steps) == Some(tr.root);
    ExampleCollapse(steps, tr.root);
    g := Unfold(tr.store, tr.root, 5);
  }

  // ---------------------------------------------------------------------------------
  // writeMDTree (markdown.go:282-376)

  /**
   * The text of a bullet line (markdown.go:307-317): `[P<n>] ` before the title when a
   * priority is set, and ` ([text](url))` after it when a URL is set, the text being
   * the link title or else `link`.
   */
  function BulletTitle(n: Node<Goal>): (r: string)
    ensures Occurs(n.title, r)
    ensures n.priority.Some? ==> Occurs("[P" + IntString(n.priority.value) + "] " + n.title, r)
    ensures n.link.url != "" ==> Occurs("](" + n.link.url + "))", r)
    ensures n.priority.None? && n.link.url == "" ==> r == n.title
  {
    var p := if n.priority.Some? then "[P" + IntString(n.priority.value) + "] " else "";
    var txt := if n.link.title != "" then n.link.title else "link";
    var tail := "](" + n.link.url + "))";
    OccursEnd(n.title, p);
    OccursEnd(p + n.title, []);
    assert [] + (p + n.title) == p + n.title;
    if n.link.url != "" then
      OccursEnd(tail, p + n.title + " ([" + txt);
      OccursAppends(n.title, p + n.title, " ([", txt, tail);
      OccursAppends(p + n.title, p + n.title, " ([", txt, tail);
      p + n.title + " ([" + txt + tail
    else
      p + n.title
  }

  /** The value of a progress line: `N%` out of 100, `D/T` otherwise (markdown.go:333-337). */
  function ProgressValue(p: Progress): string
  {
    if p.total == 100 then IntString(p.done) + "%" else IntString(p.done) + "/" + IntString(p.total)
  }

  /** The progress line, left out for a zero progress (markdown.go:332-338). */
  function ProgressLine(p: Progress): (r: string)
    ensures r == "" <==> p == NoProgress
  {
    if p == NoProgress then "" else "**Progress:** " + ProgressValue(p) + "\n\n"
  }

  /** hasDesc (markdown.go:294-305): some node of the subtree has a description. */
  predicate HasDesc(g: Goal)
  {
    g.node.desc != "" || exists i :: 0 <= i < |g.node.sub| && HasDesc(g.node.sub[i])
  }

  /**
   * writeMDTree: a positive `blvl` writes a bullet line indented by blvl-1 tabs and the
   * children as deeper bullets; otherwise a heading of `lvl` hashes, the source link, the
   * progress line and the description, then the children, as bullets when this node is
   * at bullet level 0 and no child has a description anywhere below it.
   */
  function WriteMD(g: Goal, lvl: int, blvl: int): string
    decreases g, 1
  {
    var n := g.node;
    if blvl > 0 then
      Repeat("\t", blvl - 1) + "* " + BulletTitle(n) + "\n" + WriteSubs(g, 0, lvl + 1, blvl + 1)
    else
      var b := if n.desc != "" && blvl < 0 then 0 else blvl;
      if b == 0 && !(exists i :: 0 <= i < |n.sub| && HasDesc(n.sub[i])) then
        HeadingLines(g, lvl) + WriteSubs(g, 0, lvl + 1, 1) + "\n"
      else
        HeadingLines(g, lvl) + WriteSubs(g, 0, lvl + 1, if b < 0 && |n.sub| > 1 then 0 else b)
  }

  /**
   * What a node written at heading level writes before its children (markdown.go:326-344):
   * its title as a heading of `lvl` hashes, its source link, its progress and its
   * description, each followed by a blank line and each left out when empty.
   */
  function HeadingLines(g: Goal, lvl: int): string
  {
    var n := g.node;
    (if n.title != "" then Repeat("#", lvl) + " " + n.title + "\n\n" else "")
    + (if n.link.url != "" then "[Source page](" + n.link.url + ")\n\n" else "")
    + ProgressLine(ProgressOf(g))
    + (if n.desc != "" then n.desc + "\n\n" else "")
  }

  /** The children of `g` from the `i`-th on, each written at the same levels. */
  function WriteSubs(g: Goal, i: nat, lvl: int, blvl: int): string
    requires i <= |g.node.sub|
    decreases g, 0, |g.node.sub| - i
  {
    if i == |g.node.sub| then "" else WriteMD(g.node.sub[i], lvl, blvl) + WriteSubs(g, i + 1, lvl, blvl)
  }

  /** WriteMDTree (markdown.go:282-284): the root as a level-1 heading, not yet at bullet level. */
  function WriteMDTree(g: Goal): (r: string)
    ensures g.node.title != "" ==> "# " + g.node.title + "\n\n" <= r
    ensures forall d :: d != "" && DescIn(g, d) ==> Occurs(d + "\n\n", r)
  {
    WriteKeepsAllDescs(g, 1, -1);
    RootHeading(g);
    WriteMD(g, 1, -1)
  }

  /** The root, written at heading level 1, opens with its title as a `# ` heading. */
  lemma RootHeading(g: Goal)
    ensures g.node.title != "" ==> "# " + g.node.title + "\n\n" <= WriteMD(g, 1, -1)
  {
    hide WriteMD, HeadingLines;
    HeadingFirst(g, 1, -1);
    TitleFirst(g);
  }

  /** At heading level the node's own lines come before its children. */
  lemma HeadingFirst(g: Goal, lvl: int, blvl: int)
    requires blvl <= 0
    ensures HeadingLines(g, lvl) <= WriteMD(g, lvl, blvl)
  {
    hide HeadingLines, WriteSubs, HasDesc;
    var n := g.node;
    var hl := HeadingLines(g, lvl);
    var b := if n.desc != "" && blvl < 0 then 0 else blvl;
    var bl := if b < 0 && |n.sub| > 1 then 0 else b;
    if b == 0 && !(exists i :: 0 <= i < |n.sub| && HasDesc(n.sub[i])) {
      PrefixOfAppends(hl, WriteSubs(g, 0, lvl + 1, 1), "\n");
    } else {
      PrefixOfAppends(hl, WriteSubs(g, 0, lvl + 1, bl), []);
    }
  }

  lemma TitleFirst(g: Goal)
    ensures g.node.title != "" ==> "# " + g.node.title + "\n\n" <= HeadingLines(g, 1)
  {
    hide ProgressLine, ProgressOf;
    var n := g.node;
    if n.title != "" {
      var h := "# " + n.title + "\n\n";
      var src := if n.link.url != "" then "[Source page](" + n.link.url + ")\n\n" else "";
      var desc := if n.desc != "" then n.desc + "\n\n" else "";
      assert Repeat("#", 1) == "#";
      assert HeadingLines(g, 1) == h + src + ProgressLine(ProgressOf(g)) + desc;
      PrefixOfAppends(h, src, ProgressLine(ProgressOf(g)));
      PrefixOfAppends(h + src + ProgressLine(ProgressOf(g)), desc, []);
    }
  }

  lemma PrefixOfAppends(a: string, b: string, c: string)
    ensures a <= a + b + c
  {
    assert (a + b + c)[..|a|] == a;
  }

  /**
   * A bullet written for a node with a priority and no link reads back, through the
   * title parser, as the same priority and title, provided the title has no surrounding
   * spaces, hash references or URLs of its own.
   */
  lemma BulletRoundTrip(n: Node<Goal>)
    requires n.priority.Some? && 0 <= n.priority.value <= MaxInt && n.link.url == ""
    requires n.title != [] ==> !IsSpace(n.title[0]) && !IsSpace(n.title[|n.title| - 1])
    requires !Matches(HashRef, n.title) && !Matches(Url, n.title)
    ensures SplitTitle(BulletTitle(n)) == TitleParts(n.priority, [], n.title)
  {
    hide Occurs;
    var p := n.priority.value;
    var t := n.title;
    var d := NatString(p);
    var s := BulletTitle(n);
    assert s == "[P" + d + "] " + t;
    PriorityTagMatch(d, t);
    assert s[|d| + 4..] == t;
    assert AfterPriority(s) == t;
    NatStringValue(p);
    assert TagPriority(s) == Some(p);
    assert FindAll(HashRef, t, 0) == [];
    assert Strip(HashRef, t, 0) == t;
    assert FindAll(Url, t, 0) == [];
    assert RemoveEach(t, Texts(t, [])) == t;
    assert RefLinks([]) + UrlLinks([]) == [];
    TrimSpaceTrimmed(t);
  }

  /**
   * A progress line's value reads back as the same progress: a percentage other than
   * 0% and any fraction of non-negative 64-bit numbers; `0%` leaves the progress as it was.
   */
  lemma ProgressRoundTrip(p: Progress, prev: Option<Progress>)
    requires 0 <= p.done <= MaxInt && 0 <= p.total <= MaxInt
    ensures p.total == 100 && p.done != 0 ==> ProgressField(ProgressValue(p), prev) == Some(p)
    ensures p.total == 100 && p.done == 0 ==> ProgressField(ProgressValue(p), prev) == prev
    ensures p.total != 100 ==> ProgressField(ProgressValue(p), prev) == Some(p)
  {
    if p.total == 100 {
      PercentRoundTrip(p.done, prev);
    } else {
      FractionRoundTrip(p, prev);
    }
  }

  lemma PercentRoundTrip(n: nat, prev: Option<Progress>)
    ensures ProgressField(NatString(n) + "%", prev) == if n != 0 then Some(Progress(n, 100)) else prev
  {
    hide NatString, DigitsValue;
    var d := NatString(n);
    NatStringValue(n);
    PercentMatch(d);
    assert Find(Percent, d + "%", 0).value.group == d;
  }

  lemma FractionRoundTrip(p: Progress, prev: Option<Progress>)
    requires 0 <= p.done <= MaxInt && 0 <= p.total <= MaxInt && p.total != 100
    ensures ProgressField(ProgressValue(p), prev) == Some(p)
  {
    var d := NatString(p.done);
    var t := NatString(p.total);
    assert ProgressValue(p) == d + "/" + t;
    hide NatString, ProgressValue;
    NatStringValue(p.done);
    NatStringValue(p.total);
    PartsMatch(d, t);
  }

  // ---------------------------------------------------------------------------------
  // What the writer keeps

  /** `t` occurs in `s`, as strings.Contains tests. */
  predicate Occurs(t: string, s: string)
  {
    exists k: nat :: k <= |s| && OccursAt(s, t, k)
  }

  lemma OccursEnd(t: string, a: string)
    ensures Occurs(t, a + t)
  {
    assert (a + t)[|a|..|a| + |t|] == t;
    assert OccursAt(a + t, t, |a|);
  }

  lemma OccursAppends(t: string, s: string, b: string, c: string, e: string)
    requires Occurs(t, s)
    ensures Occurs(t, s + b + c + e)
  {
    var k: nat :| k <= |s| && OccursAt(s, t, k);
    assert (s + b + c + e)[k..k + |t|] == s[k..k + |t|];
    assert OccursAt(s + b + c + e, t, k);
  }

  lemma OccursBetween(t: string, a: string, b: string)
    ensures Occurs(t, a + t + b)
  {
    assert (a + t + b)[|a|..|a| + |t|] == t;
    assert OccursAt(a + t + b, t, |a|);
  }

  lemma OccursWider(t: string, a: string, s: string, b: string)
    requires Occurs(t, s)
    ensures Occurs(t, a + s + b)
  {
    var k: nat :| k <= |s| && OccursAt(s, t, k);
    assert (a + s + b)[|a| + k..|a| + k + |t|] == s[k..k + |t|];
    assert OccursAt(a + s + b, t, |a| + k);
  }

  /** `d` is the description of some node of `g`. */
  predicate DescIn(g: Goal, d: string)
  {
    g.node.desc == d || exists i :: 0 <= i < |g.node.sub| && DescIn(g.node.sub[i], d)
  }

  /** hasDesc holds exactly when some node of the subtree has a non-empty description. */
  lemma {:induction false} HasDescIff(g: Goal)
    ensures HasDesc(g) <==> exists d :: d != "" && DescIn(g, d)
    decreases g
  {
    var n := g.node;
    if n.desc != "" {
      assert DescIn(g, n.desc);
    } else if HasDesc(g) {
      var i :| 0 <= i < |n.sub| && HasDesc(n.sub[i]);
      HasDescIff(n.sub[i]);
      var d :| d != "" && DescIn(n.sub[i], d);
      assert DescIn(g, d);
    } else {
      forall i | 0 <= i < |n.sub|
        ensures forall d :: d != "" ==> !DescIn(n.sub[i], d)
      {
        HasDescIff(n.sub[i]);
      }
    }
  }

  /**
   * The writer drops no description: a node written at heading level writes every
   * non-empty description of its subtree, followed by a blank line. It turns to bullets,
   * which carry no description, only for children without one anywhere below them.
   */
  lemma {:induction false} WriteKeepsDescs(g: Goal, lvl: int, blvl: int, d: string)
    requires blvl <= 0 && d != "" && DescIn(g, d)
    ensures Occurs(d + "\n\n", WriteMD(g, lvl, blvl))
    decreases g, 1
  {
    hide HeadingLines, WriteSubs, Occurs, HasDesc;
    var n := g.node;
    var t := d + "\n\n";
    var b := if n.desc != "" && blvl < 0 then 0 else blvl;
    var bullets := b == 0 && !(exists i :: 0 <= i < |n.sub| && HasDesc(n.sub[i]));
    var bl := if b < 0 && |n.sub| > 1 then 0 else b;
    var rest := if bullets then WriteSubs(g, 0, lvl + 1, 1) + "\n" else WriteSubs(g, 0, lvl + 1, bl);
    assert WriteMD(g, lvl, blvl) == HeadingLines(g, lvl) + rest;
    if n.desc == d {
      DescLine(g, lvl);
      OccursWider(t, [], HeadingLines(g, lvl), rest);
      assert [] + HeadingLines(g, lvl) + rest == HeadingLines(g, lvl) + rest;
    } else {
      var j :| 0 <= j < |n.sub| && DescIn(n.sub[j], d);
      HasDescIff(n.sub[j]);
      assert d != "" && DescIn(n.sub[j], d);
      assert HasDesc(n.sub[j]);
      assert !bullets;
      SubsKeepDescs(g, 0, lvl + 1, bl, d, j);
      OccursWider(t, HeadingLines(g, lvl), rest, []);
      assert HeadingLines(g, lvl) + rest + [] == HeadingLines(g, lvl) + rest;
    }
  }

  /** A node's own description is among its heading lines, followed by a blank line. */
  lemma DescLine(g: Goal, lvl: int)
    requires g.node.desc != ""
    ensures Occurs(g.node.desc + "\n\n", HeadingLines(g, lvl))
  {
    hide ProgressLine, ProgressOf, Repeat;
    var n := g.node;
    var pre := (if n.title != "" then Repeat("#", lvl) + " " + n.title + "\n\n" else "")
      + (if n.link.url != "" then "[Source page](" + n.link.url + ")\n\n" else "")
      + ProgressLine(ProgressOf(g));
    OccursEnd(n.desc + "\n\n", pre);
  }

  /** The children from the `i`-th on, written at heading level, keep the `j`-th one's descriptions. */
  lemma {:induction false} SubsKeepDescs(g: Goal, i: nat, lvl: int, blvl: int, d: string, j: nat)
    requires i <= j < |g.node.sub| && blvl <= 0 && d != "" && DescIn(g.node.sub[j], d)
    ensures Occurs(d + "\n\n", WriteSubs(g, i, lvl, blvl))
    decreases g, 0, |g.node.sub| - i
  {
    hide WriteMD, DescIn;
    var t := d + "\n\n";
    var c := g.node.sub[i];
    var more := WriteSubs(g, i + 1, lvl, blvl);
    if i == j {
      WriteKeepsDescs(c, lvl, blvl, d);
      OccursWider(t, "", WriteMD(c, lvl, blvl), more);
      assert "" + WriteMD(c, lvl, blvl) + more == WriteSubs(g, i, lvl, blvl);
    } else {
      SubsKeepDescs(g, i + 1, lvl, blvl, d, j);
      OccursWider(t, WriteMD(c, lvl, blvl), more, "");
      assert WriteMD(c, lvl, blvl) + more + "" == WriteSubs(g, i, lvl, blvl);
    }
  }

  lemma WriteKeepsAllDescs(g: Goal, lvl: int, blvl: int)
    requires blvl <= 0
    ensures forall d :: d != "" && DescIn(g, d) ==> Occurs(d + "\n\n", WriteMD(g, lvl, blvl))
  {
    forall d | d != "" && DescIn(g, d)
      ensures Occurs(d + "\n\n", WriteMD(g, lvl, blvl))
    {
      WriteKeepsDescs(g, lvl, blvl, d);
    }
  }

  /** No node of the subtree has a newline in its bullet text. */
  predicate OneLineTitles(g: Goal)
  {
    '\n' !in BulletTitle(g.node) && forall i :: 0 <= i < |g.node.sub| ==> OneLineTitles(g.node.sub[i])
  }

  lemma {:induction false} TabsOnOneLine(k: int)
    ensures '\n' !in Repeat("\t", k)
    decreases k
  {
    if k > 0 {
      TabsOnOneLine(k - 1);
    }
  }

  /**
   * At bullet level the writer writes exactly one line per node of the subtree: each
   * node's bullet, and no heading, description or blank line.
   */
  lemma {:induction false} BulletLines(g: Goal, lvl: int, blvl: int)
    requires blvl > 0 && OneLineTitles(g)
    ensures multiset(WriteMD(g, lvl, blvl))['\n'] == Size(g)
    decreases g, 1
  {
    var n := g.node;
    var line := Repeat("\t", blvl - 1) + "* " + BulletTitle(n) + "\n";
    TabsOnOneLine(blvl - 1);
    assert multiset(line)['\n'] == 1;
    SubsLines(g, 0, lvl + 1, blvl + 1);
    assert WriteMD(g, lvl, blvl) == line + WriteSubs(g, 0, lvl + 1, blvl + 1);
    assert n.sub[0..] == n.sub;
  }

  lemma {:induction false} SubsLines(g: Goal, i: nat, lvl: int, blvl: int)
    requires i <= |g.node.sub| && blvl > 0
    requires forall k :: 0 <= k < |g.node.sub| ==> OneLineTitles(g.node.sub[k])
    ensures multiset(WriteSubs(g, i, lvl, blvl))['\n'] == SizeAll(g.node.sub[i..])
    decreases g, 0, |g.node.sub| - i
  {
    if i < |g.node.sub| {
      BulletLines(g.node.sub[i], lvl, blvl);
      SubsLines(g, i + 1, lvl, blvl);
      assert g.node.sub[i..][1..] == g.node.sub[i + 1..];
    }
  }
}

# okrs core model

okrs builds a tree of objectives and key results. The nodes come from Markdown documents and from GitHub issues. okrs then writes the tree out as Markdown or as a MindMup mind map. This project models okrs' core in Dafny and proves properties of that model:

- **The node registry** (`nodes.go`). The `Tree` holds a root, an id index, a url index and a bucket of nodes without an id. `NewNode` upserts a node through these indexes. `merge` fills in empty fields, so the first writer wins. `AddChild` appends children in order and without duplicates. `GetProgress` computes progress and `IsDone` tests it. `Unfold` turns a stored node into the finished tree that the recursive walks read.
- **The Markdown reader and writer** (`markdown.go`):
  - the title parser, which cuts out the priority tag, the `#N` references and the URLs;
  - list items with check boxes, and lists;
  - paragraph fields: the description, `**Progress:**` and `**Parent:**`;
  - the heading spine, which `cur()` and `curAt()` walk, and the final collapse of the root;
  - the writer, `writeMDTree`.

  The five regular expressions become exact leftmost-first scanners.
- **The GitHub resolver** (`github.go`):
  - `ghRepo.asTree` indexes the issues, links their declared parents, reconciles each issue's local tree (`resolve`) and hangs the remaining issues under the repository node;
  - `ghOrg.asTree` and `Github.asTree` build the organisations;
  - `loadOrgTree` collapses a single-child root;
  - `parseLinks` turns the `#N` and URL references of an issue into links.
- **The MindMup conversion** (`mindmup.go`). `asMindMup` numbers the ideas in pre-order with a captured counter.
- **The writer registry** (`formats.go`). It covers registration and lookup, listing in name order, and `DumpTree`'s choice of writer by file extension.

## Modelling choices

- **The heap is an arena.** `Nodes.Tree` is a class. Its `store: seq<Record>` holds the node behind each pointer, so a `*Node` is a `Handle` (an index) and pointer identity is handle equality. Methods that update nodes in place reassign `store`. Each such method is proved against a function on the `Arena` value. The GitHub loops are methods in `GithubBuild`, each proved against the fold of the same name in `Github`.
- **`Sort` is unconstrained.** `Node.Sort` is not among the modelled sources, so the model lets it pick any permutation of the children. The methods are therefore proved to agree with the folds up to the order of children (`Reordered`).
- **Spines that never end are reported.** A heading spine or a root chain can be cyclic: a weak match may copy a node's `Sub` into a new node. The walks of `cur()` and of the root collapse are bounded by the number of nodes. Where the Go loop would never stop, the model returns "does not terminate" and proves that the walk really goes on forever (`Markdown.WalkForever`).
- **Panics become outcomes or requirements.** The precedence slip at `github.go:339` is modelled as a `Titling` outcome by `Github.TitleAsWritten`. The resolver (`Github.Retitle`, `Github.Step`, `Github.RepoTree`) uses the corrected `Github.IssueTitle`, so the panic is not reproduced there (see Findings). `RegisterTreeWriter`'s panic on a duplicate name is a requirement on the caller. A `**Strong**` paragraph child without any child would dereference nil in Go, which reads the first child's text for every `Strong`, whether or not a text value follows it; the model requires that every such `Strong` has a child (`StrongsHaveChild`). A first child of another kind, such as an emphasis, is read through its `literal` field, as Go reads its `Literal`.
- **Finished trees.** `GetProgress`, `writeMDTree`, `asMindMup` and `resolve` (over an issue's local tree) recurse over `Sub`. The model gives them a finished `Goal` value, and `Nodes.Unfold` maps a stored node to that value. A node shared by two parents is unfolded under each, as the recursion visits it twice. A node on a cycle unfolds at no depth (`Nodes.UnfoldCycle`), where the Go recursion does not return; on a store without cycles every node unfolds (`Nodes.UnfoldTotal`).
- **`isProxyNode` has its own definition here.** It is not among the modelled sources. `Types.IsProxy` reads it as a node with no id, title, description, link, priority or progress.
- **Where the specification and the code disagree, the model follows the code:**
  - An issue that declares itself, or a partner, as its parent gets a cycle, not an error.
  - `merge` never moves a bucket node into the id index. A bucket entry is only dropped, or replaced, when an upserted node matches it weakly.
  - `NewNode` looks a node's URL up in the id index (`nodes.go:22`), not in the url index.
- **Two `DumpTree` branches cannot be reached.** A writer is chosen only when the name's extension is `"." + Ext`, which is never empty. So the standard-output branch and the appended extension are dead code (`Formats.ChosenWriterKeepsName`).

## Model

| member | source | states |
|---|---|---|
| Nodes.Tree.constructor | nodes.go:3-9 | NewTree: a single empty root node, empty indexes, empty bucket |
| Nodes.MergeFirstWriterWins | nodes.go:50-70 | each merged field keeps a set value and otherwise takes the incoming one; id, link title, links and parent are untouched |
| Nodes.MergeIdempotent | nodes.go:50-70 | merging the same record again changes nothing; merging a node with itself changes nothing |
| Nodes.MergeAssociative | nodes.go:50-70 | a chain of merges fills each field from the first record that has it, however grouped |
| Nodes.MergeAtKeepsInv | nodes.go:50-70 | merge keeps the registry invariants and indexes the node under the url it gained |
| Nodes.Tree.Merge | nodes.go:50-70 | the in-place merge on the tree is the arena merge |
| Nodes.UpsertKeepsInv | nodes.go:18-48 | NewNode keeps the id/url/bucket invariants and returns a stored node |
| Nodes.UpsertIdHit | nodes.go:19-21 | a known id: that node is merged into and returned, and nothing is created |
| Nodes.UpsertUrlKeysIdIndex | nodes.go:22-24 | an unknown id whose url is a key of the id index: that node is merged into and returned |
| Nodes.UpsertMissIndexes | nodes.go:26-32 | a miss creates the node at a new handle and indexes it by id, and by url when it has both |
| Nodes.UpsertWeakMatch | nodes.go:33-42 | the first bucket node sharing a title or url is merged into the new node; the entry is dropped when the new node has an id and replaced by it otherwise |
| Nodes.UpsertBucketSize | nodes.go:33-46 | the bucket shrinks by one, stays or grows by one, exactly as the id and the weak match decide |
| Nodes.UpsertTwiceSameNode | nodes.go:18-32 | upserting a node with an id twice returns the same node and creates nothing the second time |
| Nodes.CreateKeepsInv | nodes.go:26-32 | storing and indexing a fresh node keeps the invariants |
| Nodes.SettleKeepsInv | nodes.go:33-46 | the bucket step keeps the invariants |
| Nodes.FirstWeak | nodes.go:33-34 | the first bucket position whose node weakly matches; none before it, or none at all |
| Nodes.Tree.FindWeak | nodes.go:33-34 | the bucket scan returns exactly FirstWeak |
| Nodes.Tree.Insert | nodes.go:26-32 | the stored and indexed candidate, at the next handle |
| Nodes.Tree.SettleBucket | nodes.go:35-46 | the tree after the bucket step is Settle of the old one |
| Nodes.Tree.NewNode | nodes.go:18-48 | the new tree state and the handle returned are the arena upsert's; the invariants hold |
| Nodes.AddChildrenSpec | nodes.go:99-114 | AddChild keeps the old children as a prefix, ends with exactly the old children and the arguments, and adds no duplicate |
| Nodes.AddChildrenIdempotent | nodes.go:99-114 | adding present children changes nothing; adding the same list twice is adding it once |
| Nodes.AddChildrenSnoc | nodes.go:107-113 | the arguments are appended one at a time, left to right, skipping those present |
| Nodes.Tree.AddChild | nodes.go:99-114 | only the node's child list changes, to AddChildren of it |
| Nodes.AttachKeepsInv | nodes.go:99-114 | AddChild with stored children keeps the invariants |
| Nodes.Tree.Sort | github.go:209 | `root.Sort()`: some permutation of one node's children; nothing else changes |
| Nodes.UpsertReordered | nodes.go:18-48 | NewNode on trees that differ only in child order returns the same node and keeps them so |
| Nodes.GetProgress | nodes.go:84-97 | explicit non-zero progress is returned as is; otherwise done children out of all children |
| Nodes.DoneCountBound | nodes.go:88-96 | the count of done children is at most the number counted, and equal exactly when all are done |
| Nodes.DoneIffChildrenDone | nodes.go:84-97 | a node without explicit progress is done exactly when every child is |
| Nodes.ProgressExample | nodes.go:84-123 | children {1,1} and {0,1} give {1,2}; its parent gets {0,1}; a leaf without progress is done |
| Nodes.Unfold | nodes.go:84-97 | the finished tree a stored node stands for, as the recursive walks see it: the record's own fields over its children's trees |
| Nodes.UnfoldAll | nodes.go:88-96 | the children unfold exactly when each one does, one finished tree per child handle, in order |
| Nodes.UnfoldChildren | nodes.go:88-96 | an unfolded node has one finished child per child handle, each the unfolding of that handle |
| Nodes.UnfoldOver | nodes.go:88-96 | conversely, when every child handle unfolds, the node unfolds to its record over those trees |
| Nodes.UnfoldStep | nodes.go:84-97 | one level of unfolding, for a stored node |
| Nodes.UnfoldMore | nodes.go:84-97 | more depth does not change a finished tree once there is one |
| Nodes.UnfoldAllSame | nodes.go:88-96 | children that unfold alike give the same list of finished children |
| Nodes.UnfoldAllMore | nodes.go:88-96 | more depth does not change the finished children once there are some |
| Nodes.UnfoldTotal | nodes.go:84-97 | on a store without cycles (ranked) every node unfolds, with its rank plus one as depth |
| Nodes.UnfoldCycle | nodes.go:84-97 | a node on a cycle unfolds at no depth: the Go recursion does not return |
| Scan.MatchAt | markdown.go:70-75 | a match of one of the five expressions starts where it is tried and is non-empty |
| Scan.GroupDigits | markdown.go:71-74 | the numeric groups of rePriority, rePerc, reParts and reHashRef are non-empty digit strings |
| Scan.Find | markdown.go:70-75 | FindStringSubmatch: a match inside the text, as the pattern matches it at its start |
| Scan.FindLeftmost | markdown.go:70-75 | the match found is the leftmost; no match means none at any position |
| Scan.PlainFindsNothing | markdown.go:70-75 | in text without `[`, `#` or `h`, rePriority, reHashRef and reURL find nothing and stripping them keeps the text |
| Scan.FindAll | markdown.go:237-250 | FindAllStringSubmatch: matches in the text, ordered and non-overlapping |
| Scan.RemoveEachIsStrip | markdown.go:238-244 | replacing each `#N` match's text once, in order, removes exactly the matched spans |
| Scan.RemoveHashRefs | github.go:443-451 | the reference loop leaves the text with every hash-reference span cut out |
| Scan.FirstOccurrenceIsMatch | markdown.go:238-244 | the first occurrence of the next reference's text is that reference itself |
| Scan.NoRefStartExtends | markdown.go:238-244 | cutting out a reference creates no new reference before the cut |
| Scan.PriorityRemovedInPlace | markdown.go:230-231 | the priority tag's replace removes the tag where the pattern found it |
| Scan.PriorityTextMatches | markdown.go:71 | wherever the text of a priority tag occurs, the pattern matches |
| Scan.PriorityTagMatch | markdown.go:71 | `[P<digits>] ` before a non-space is a tag from 0 to its end, its group the digits |
| Scan.PercentMatch | markdown.go:72 | `<digits>%` matches rePerc with the digits as its group |
| Scan.PartsMatch | markdown.go:73 | `<digits>/<digits>` has no percentage and matches reParts with both numbers |
| Markdown.CutPriority | markdown.go:230-236 | the leftmost tag is cut out; its number is the priority unless it overflows |
| Markdown.CutRefs | markdown.go:237-244 | every `#N` becomes a link `#N` and is cut from the text |
| Markdown.CutUrls | markdown.go:245-250 | every URL match becomes a title-less link and its text is cut out |
| Markdown.ParseTitle | markdown.go:229-257 | parseTitle sets the priority, one Link or else Links, and the trimmed remaining title, as SplitTitle describes |
| Markdown.PlainTitle | markdown.go:229-257 | a title without `[`, `#` or `h` gives no priority and no links, and is only trimmed |
| Markdown.RefLinksShape | markdown.go:237-244 | every reference link is `#` and digits, as both its title and its url |
| Markdown.Checkbox | markdown.go:266-272 | a `[x] ` box is cut and trimmed; checked exactly when the mark is not a space; any other text is kept, unchecked |
| Markdown.CheckedItemIsDone | markdown.go:266-275 | a checked item is done (1/1); an unchecked one has no progress; the title is the parsed rest |
| Markdown.ItemLoop | markdown.go:260-277 | the loop over an item's children keeps the registry invariants and yields a record whose children are stored |
| Markdown.ItemTree | markdown.go:259-280 | mdItem2Tree on the tree value: the loop's record is upserted; the node returned is stored |
| Markdown.ItemLoopFields | markdown.go:262-275 | after the first i children the record has exactly the fields their paragraphs set, in order (ItemFields) |
| Markdown.ItemLoopSub | markdown.go:276-277 | after the first i children the record's children are the nodes of the last nested list among them, or none |
| Markdown.ItemTreeFields | markdown.go:259-280 | the node upserted for an item has ItemFields of all its children and the last nested list's nodes as children |
| Markdown.ItemStepSub | markdown.go:262-275 | a paragraph of an item never touches the record's children |
| Markdown.ListLoop | markdown.go:219-226 | after the first i children of a list, one stored node per item among them |
| Markdown.ListTree | markdown.go:218-227 | mdList2Tree on the tree value: exactly one stored node per item, in order |
| Markdown.ListLoopItem | markdown.go:221-224 | the node for the k-th child item is ItemTree of it, built on the tree the earlier items left |
| Markdown.ListLoopSnoc | markdown.go:219-226 | one more child: an item appends its node, built on the tree so far; any other node is skipped |
| Markdown.ListOfOne | markdown.go:218-227 | a one-item list is that item's node on the tree the item leaves |
| Markdown.ListOfTwo | markdown.go:218-227 | a two-item list builds the second item on the tree the first left, and returns both nodes in order |
| Markdown.UpsertNewTitle | nodes.go:18-46 | a node with no id, no url and a title no stored node has is stored at the next handle and put in the bucket |
| Markdown.BoxParagraph | markdown.go:263-274 | a `[m] t` paragraph with a plain title gives title `t`, and progress {1,1} exactly when `m` is not a space |
| Markdown.BoxItem | markdown.go:259-280 | a task item without a nested list adds one new bucket node with that title and progress |
| Markdown.BoxItemOver | markdown.go:259-280 | a task item with a nested list adds one new node over the nodes that list built |
| Markdown.ItemToTree | markdown.go:259-280 | the in-place item builder ends in exactly the tree and node ItemTree gives |
| Markdown.ListToTree | markdown.go:218-227 | the in-place list builder ends in exactly the tree and nodes ListTree gives |
| Markdown.ParentField | markdown.go:183-206 | the following link node is consumed only for an empty value; a link without url is the empty link |
| Markdown.ParToDesc | markdown.go:141-216 | the paragraph loop computes ParDesc: fields found, then the description appended |
| Markdown.ParDescFrame | markdown.go:141-216 | a paragraph changes only the description, progress and parent; an old description stays in front, followed by a newline |
| Markdown.ProgressRoundTrip | markdown.go:158-180 | a progress line's value reads back as the same progress; `0%` leaves the progress as it was |
| Markdown.BulletRoundTrip | markdown.go:307-317 | a bullet with a priority and no link parses back to the same priority and title |
| Markdown.BulletTitle | markdown.go:307-317 | the bullet text holds the title; `[P<n>] title` when a priority is set; `](url))` when a url is set; the bare title when neither |
| Markdown.ProgressLine | markdown.go:332-338 | empty exactly when the progress is zero, so a zero GetProgress writes no `**Progress:**` line |
| Markdown.HasDescIff | markdown.go:294-305 | hasDesc holds exactly when some node of the subtree has a non-empty description |
| Markdown.WriteMDTree | markdown.go:282-284 | the root is written at heading level 1: a titled root opens with `# title` and a blank line, and every non-empty description anywhere in the tree is written, followed by a blank line |
| Markdown.RootHeading | markdown.go:282-284 | writeMDTree(tree, 1, -1) opens with the root's `# title` line when the root has a title |
| Markdown.TitleFirst | markdown.go:326-328 | at level 1 a titled node's own lines open with `# title` and a blank line |
| Markdown.HeadingFirst | markdown.go:326-376 | at heading level the node's title, source link, progress and description come before any child's text |
| Markdown.WriteKeepsDescs | markdown.go:286-376 | a node written at heading level writes every non-empty description of its subtree: bullets, which drop descriptions, are chosen only for children without one below them |
| Markdown.SubsKeepDescs | markdown.go:366-374 | the child loop at heading level writes the descriptions under every child |
| Markdown.DescLine | markdown.go:339-344 | a node with a description writes it, followed by a blank line, among its heading lines |
| Markdown.WriteKeepsAllDescs | markdown.go:286-376 | WriteKeepsDescs for every description of the subtree at once |
| Markdown.BulletLines | markdown.go:306-324 | at bullet level a subtree writes exactly one line per node, and no heading, description or blank line, when no bullet text holds a newline |
| Markdown.SubsLines | markdown.go:319-323 | the bullet child loop writes one line per node of each child's subtree |
| Markdown.Cur | markdown.go:100-107 | the deepest node down the last-child spine and its depth, which is SpineLeaf; or none, and the spine never ends |
| Markdown.WalkForever | markdown.go:100-107 | a walk longer than the node count goes on forever |
| Markdown.Descend | markdown.go:108-118 | curAt(dst) as a function: a stored node reached by max(dst, 0) steps |
| Markdown.DescendWalks | markdown.go:108-118 | curAt's node is exactly max(dst, 0) last-child steps down the new tree |
| Markdown.DescendDeepSpine | markdown.go:108-118 | on a deep-enough spine curAt creates nothing and only walks |
| Markdown.DescendFrame | markdown.go:108-118 | curAt changes only childless nodes' children and the bucket; its new nodes are empty |
| Markdown.UpsertBlank | markdown.go:111-113 | `NewNode(Node{})` always creates a fresh node in the bucket |
| Markdown.SproutAt | markdown.go:111-113 | a childless node gets a fresh empty node as its only child |
| Markdown.DescendStep | markdown.go:110-116 | one turn of curAt keeps the remaining walk equal to the whole |
| Markdown.CurAt | markdown.go:108-118 | the in-place curAt ends in the state and at the node Descend gives |
| Markdown.HeadingRecord | markdown.go:123-126 | a heading's node has only a title, without trailing colons |
| Markdown.DescendKeepsInv | markdown.go:108-118 | curAt's placeholders keep the registry invariants |
| Markdown.HeadingStep | markdown.go:121-127 | a heading on the tree value: curAt(level - 1), then the upserted heading node added under it; the invariants hold |
| Markdown.LeafAtUnique | markdown.go:100-107 | the last-child spine meets a childless node at one depth at most |
| Markdown.SpineLeaf | markdown.go:100-107 | cur()'s node: the childless node the spine reaches, or none when no depth reaches one |
| Markdown.SpineLeafAt | markdown.go:100-107 | a childless node at any depth of the spine is SpineLeaf |
| Markdown.SpineLeafForever | markdown.go:100-107 | SpineLeaf is none exactly when the spine walk goes on forever |
| Markdown.NoLeafWalks | markdown.go:100-107 | a spine with no childless node can be walked any number of steps |
| Markdown.ParagraphStep | markdown.go:128-130 | a paragraph on the tree value: only cur()'s node changes, to ParDesc; the invariants hold |
| Markdown.ListStep | markdown.go:131-133 | a list on the tree value: ListTree's nodes become children of cur()'s node; the invariants hold |
| Markdown.DocStep | markdown.go:120-134 | one block: a heading, paragraph or list acts and any other block is skipped; none only for a paragraph or list with no leaf |
| Markdown.DocFold | markdown.go:119-135 | the blocks of the document applied in order from the first; none once a step found no leaf |
| Markdown.DocFoldStaysNone | markdown.go:119-135 | once a step has found an endless spine, every longer prefix fails too |
| Markdown.DocFoldStops | markdown.go:119-135 | a failed fold stops at a paragraph or a list whose spine, in the tree built so far, goes on forever |
| Markdown.AddHeading | markdown.go:121-127 | the in-place heading step ends in HeadingStep of the old tree |
| Markdown.AddParagraph | markdown.go:128-130 | the node is SpineLeaf of the old tree and the tree ends in ParagraphStep; with no leaf nothing changes and the spine never ends |
| Markdown.AddList | markdown.go:131-133 | the node is SpineLeaf of the old tree, the nodes added are ListTree's, and the tree ends in ListStep; with no leaf nothing changes |
| Markdown.AddBlock | markdown.go:120-134 | succeeds exactly when DocStep does, and then ends in its tree |
| Markdown.AddBlocks | markdown.go:119-135 | succeeds exactly when DocFold of the whole document does, and then ends in its tree |
| Markdown.BlockTurn | markdown.go:119-135 | one turn of the block loop keeps the tree equal to DocFold of the prefix, or shows the whole fold fails |
| Markdown.CollapseRoot | markdown.go:136-138 | the root moves down single-child proxy nodes until one is not, or never stops |
| Markdown.DocToTree | markdown.go:98-139 | on success the tree is DocFold of the whole document and the root is where the collapse walk stops; failure only when the fold meets an endless spine or the collapse never stops |
| Markdown.UpsertFresh | nodes.go:26-46 | a node without id or url that matches no bucket node is stored at a new handle and put in the bucket |
| Markdown.DocExample | markdown_test.go:25-57 | the `basic` case without its `## Level 2:` section builds, from NewTree, the tree with `Level 5` two placeholders below `Level 2.2` and the task list under `Level 2.3` |
| Markdown.ExampleStepAt | markdown_test.go:25-57 | each of those blocks takes the tree from one state to the next |
| Markdown.ExampleItems | markdown_test.go:52-56 | the task list adds `sub 2.3.1`, then the nested `sub 2.3.2.1`, then `sub 2.3.2` over it, and returns the two top items |
| Markdown.ExampleCollapse | markdown_test.go:58-110 | the root collapse stops at `Root`, which unfolds to the expected tree of that part |
| Markdown.ExampleUnfold | markdown_test.go:58-110 | `Root` / `Some description` over `Level 2.2` (two empty nodes above `Level 5`) and `Level 2.3` (`sub 2.3.1`, and `sub 2.3.2` done over `sub 2.3.2.1` done) |
| Markdown.ParseExample | markdown_test.go:20-110 | NewTree then mdDoc2Tree on that document succeeds and its root is the expected tree |
| GithubLinks.RefNumber | github.go:445 | Atoi with its error ignored: the reference's value, capped at Go's largest int |
| GithubLinks.FirstFailure | github.go:443-451 | the first reference the resolver rejects, with every earlier one resolved |
| GithubLinks.CutEachRef | github.go:443-451 | each reference is cut out, then resolved; the first failure stops the loop with its error |
| GithubLinks.CutEachTarget | github.go:452-455 | every URL match is cut out and its URL kept, in order |
| GithubLinks.ParseLinks | github.go:441-457 | parseLinks returns the text, links and error LinksOf describes |
| GithubLinks.ParseLinksOutcome | github.go:443-456 | fails exactly when a reference is unresolvable; on success, one link per reference in order, then one per URL; on failure, fewer links than references |
| Github.IssueTitle | github.go:339-346 | a title exactly for four-segment issue or pull paths: `#n` in the same repository, `org/repo#n` elsewhere |
| Github.TitleAsWrittenOnFour | github.go:339 | on four segments the code as written agrees with the intended test |
| Github.TitleAsWrittenCounterexamples | github.go:339 | one or three segments panic; a five-segment pull path gets a title |
| Github.SynthLink | github.go:334-351 | only a title-less link with a url gains a title; the url never changes |
| Github.ByLink | github.go:269-278 | the node by short ref, else by id, else by page url; none exactly when no map knows the link |
| Github.IndexIssue | github.go:241-266 | the issue's node is indexed under its four keys and is found again by its own link |
| Github.IndexIssueUnfold | github.go:241-262 | NewNode, then the local tree's parent set only on a node without one |
| Github.IndexUpTo | github.go:239-267 | the indexing loop yields one stored node per issue and maps that mention only stored nodes |
| Github.LinkParent | github.go:283-293 | an unknown declared parent fails; a known one adopts the node and records it |
| Github.LinkFrom | github.go:280-294 | the parent loop keeps the maps good and creates no node |
| Github.FillFirstWriterWins | github.go:299-308 | filling keeps set values, takes the local ones otherwise, and appends the local links |
| Github.Copy | github.go:316-318 | an unmatched item is copied without its children |
| Github.AdoptFindsAgain | github.go:320-331 | a copy is found again by its link exactly when the link has a url or a hash-reference title |
| Github.Lookup | github.go:311-333 | the item's node, existing or a new indexed copy |
| Github.Retitle | github.go:334-351 | retitling keeps every node stored and the maps good |
| Github.ParentConflict | github.go:353-366 | a declared parent conflicts exactly when neither its url nor its hash-reference title names the node listed above |
| Github.Place | github.go:367-381 | the first node an item is placed under keeps it; another fails with both links; the same one again changes nothing |
| Github.Adopted | github.go:367-368 | the node's parent link becomes the link of the node it is listed under |
| Github.Finish | github.go:353-381 | a conflict fails; success records the root as parent and lists the node under it |
| Github.Step | github.go:309-382 | a resolved item is recorded under the root, listed in its children, and points to it |
| Github.ResolveAt | github.go:297-384 | resolve keeps the maps good and never loses a node |
| Github.SubsFromStep | github.go:309-382 | the resolve loop takes one item at a time and stops at the first error |
| Github.LocalStep | github.go:386-393 | an issue without a local tree changes nothing |
| Github.OrphansUpTo | github.go:396-402 | every issue node without a parent link ends among the repository node's children; no parent link changes |
| Github.OrphanStep | github.go:397-401 | one orphan turn attaches the node only when it has no parent link |
| Github.RepoTree | github.go:232-404 | ghRepo.asTree keeps the invariants; every issue node has a parent link or hangs under the repository node |
| Github.PageNode | github.go:193-200 | the organisation or repository node is an upsert of its page record |
| Github.ReposFromStep | github.go:215-227 | the repository loop takes one repository at a time and stops at the first error |
| Github.RepoStepKeepsInv | github.go:215-227 | the built repository node goes under the organisation without breaking the invariants |
| Github.Contributed | github.go:203-207 | an organisation contributes its only child or itself, a stored node either way |
| Github.OrgsFromStep | github.go:192-208 | the organisation loop takes one organisation at a time and stops at the first error |
| Github.OrgStepKeepsInv | github.go:203-207 | the contributed node goes under the top root without breaking the invariants |
| GithubBuild.IndexIssues | github.go:239-267 | the indexing loop on the tree gives the fold's maps and nodes, up to child order |
| GithubBuild.LinkParents | github.go:280-294 | the parent loop on the tree ends like LinkFrom, up to child order |
| GithubBuild.CheckParent | github.go:353-366 | the conflict check returns ParentConflict |
| GithubBuild.PlaceUnder | github.go:367-381 | the placement on the tree ends like Place after Adopted |
| GithubBuild.FillNode | github.go:299-308 | the root takes Fill of the local node, and the maps stay good |
| GithubBuild.Resolve | github.go:297-384 | the recursive resolve on the tree ends like ResolveAt, up to child order |
| GithubBuild.ResolveLocals | github.go:385-394 | the loop over local trees ends like LocalsFrom |
| GithubBuild.AttachOrphans | github.go:396-402 | the orphan loop on the tree gives OrphansUpTo, up to child order |
| GithubBuild.RepoAsTree | github.go:232-404 | fails exactly when RepoTree fails, with its error; otherwise its tree, up to child order |
| GithubBuild.OrgAsTree | github.go:213-230 | ghOrg.asTree ends like ReposFrom, up to child order |
| GithubBuild.GithubAsTree | github.go:190-211 | Github.asTree ends like OrgsFrom, up to child order |
| GithubBuild.LoadOrgTree | github.go:152-158 | after a successful build, a root with exactly one child is replaced by that child |
| Mindmup.Convert | mindmup.go:33-41 | conv with the counter threaded through: the node and next counter Conv gives |
| Mindmup.ConvertChildren | mindmup.go:38-40 | the children loop fills keys 1..n with the converted children in order |
| Mindmup.ConvShape | mindmup.go:33-40 | a node gets number last + 1, its title and url, and children keyed 1 to n |
| Mindmup.ConvChildren | mindmup.go:38-40 | child k is the k-th child converted, numbered after every node before it (pre-order) |
| Mindmup.ConvNext | mindmup.go:33-40 | conv moves the counter on by the size of the tree |
| Mindmup.ConvIds | mindmup.go:33-40 | the numbers conv uses are exactly those from last + 1 to the counter on exit |
| Mindmup.ConvCount | mindmup.go:33-40 | conv produces one idea per node |
| Mindmup.MindMupIds | mindmup.go:31-44 | the mind map numbers its ideas 1 to the tree's size, each number used once |
| Mindmup.AsMindMup | mindmup.go:44-58 | format version 3, id "root", the root's title, and ideas keyed 1 to the number of children |
| Formats.Registry.constructor | formats.go:18 | the writer map starts empty |
| Formats.Registry.Register | formats.go:39-44 | a new name is stored with its descriptor; the map stays keyed by name |
| Formats.Registry.Lookup | formats.go:31-37 | the descriptor registered under the name, or none exactly when the name is unknown |
| Formats.SortByName | formats.go:25-27 | the same descriptors, in strictly increasing name order |
| Formats.Registry.All | formats.go:20-29 | every registered descriptor exactly once, in name order |
| Formats.PathExt | formats.go:47 | filepath.Ext: a suffix starting at the last dot of the last element, or empty when it has none |
| Formats.Registry.DumpTree | formats.go:46-71 | the first writer in name order whose `.Ext` is the extension, else the unknown-extension error; the target as OutputTarget says |
| Formats.OutputTarget | formats.go:58-62 | standard output for "" and "-"; otherwise the name, extended with `.Ext` when it lacks it |
| Formats.ChosenWriterKeepsName | formats.go:58-62 | for a chosen writer the output is always the file named as given |

## Left out

- I/O is not modelled: reading Markdown, the GitHub API, the cache, `log` output, `fmt`/`io` writers and `os.Create`. `WriteMD` returns the text written; write errors, which end writeMDTree early, are not modelled.
- The blackfriday parser is not modelled. The Markdown tree arrives as an `MdNode` value with the node kinds that `mdDoc2Tree` distinguishes.
- Loading of repositories, issues, projects and cards is not modelled (`loadRepo`, `loadIssues`, `ghIssue.parse`, `loadProjTree`, `loadByURL`, `loadIssueTreeByURL`). The model takes the loaded issues, and their local trees, as `Repo` values; a local tree is a finite `Goal` (see the `Github.ResolveAt` line below).
- resolveHashRef queries the network, so it is a `Resolver` parameter.
- The order of Go map iteration is not modelled. `TreeWriters` may read the map in any order; the model proves its result is sorted whatever the order. `Github.asTree` ranges over the `g.orgs` map and `ghOrg.asTree` over the `org.repos` map (github.go:31, 214); the model takes the organisations and each organisation's repositories as sequences, in whichever order those maps yield them.
- `Node.Sort` and the `sort.Slice` calls of `github.go` are not among the modelled sources. They are modelled as an arbitrary permutation, with no order claimed.
- `Formats.SortByName` sorts by insertion rather than with sort.Slice's algorithm. Only its result is claimed, not its sequence of comparisons.
- The `bnode` attribute (a pointer printed with `%p`) and the fixed attribute and theme JSON of `mindmup.go` are not modelled. The remaining JSON encoding is not modelled either.
- The `Write` functions of the writer descriptors are not modelled.
- `Formats.Registry.Register`: a duplicate name is a panic in Go; here it is a requirement on the caller.
- Markdown.ProgressField: reads a percentage exactly as its digits' value. `ParseFloat` rounds beyond 2^53, and converting a float above Go's largest int is implementation-defined.
- Github.HostPath: keeps only the parts of `url.Parse` that the host test needs. It cuts the fragment, the query, the `//` authority and the user info; it does not unescape or validate.
- `string` is a sequence of characters. Go's byte-oriented `len` and indexing are modelled as characters, which agrees on ASCII text.
- Integer widths: progress counts and priorities are unbounded integers. Only the 64-bit limits of `Atoi`/`ParseInt` are modelled (`Types.MaxInt`).
- Nodes.Tree.AddChild: every node's child list is its own value here. In Go, `merge` (nodes.go:67-68) copies a `Sub` slice header, so two nodes can share one backing array. A later `append` (nodes.go:111) on one of them can then overwrite a child of the other. For example, take the headings `# A`, `## B1`, `## B2`, `## B3`, `### A`, `#### X`, `## B4`. The `### A` heading weakly matches the first `A`, so its new node takes a copy of the first `A`'s child slice. In Go, that new node ends with children `[B1, B2, B3, B4]`, and `X` is lost. In the model, it ends with `[B1, B2, B3, X]`. Slice aliasing is not modelled.
- Github.ResolveAt: an issue's local tree is taken as a finite `Goal`, so a cyclic local tree cannot be given to it, and neither can it be given to GithubBuild.Resolve. In Go the local tree is the `*Tree` that ParseMDTree builds from the issue body (github.go:86-92), and that tree can be cyclic. For example, in the body `# A`, `## B`, `### A`, the third heading weakly matches `A`, and its node takes `A`'s children through merge (nodes.go:67-68). It is then added under `B`, which gives the loop `A → B → A` that Markdown.WalkForever describes. On such a tree `resolve` ranges over `local.Sub` (github.go:310) and recurses (github.go:353) without end, because the sub-items have no link and so raise no error. The model does not capture that non-termination. Nodes.Unfold, which turns a stored tree into a `Goal`, has no value for a node on a cycle (Nodes.UnfoldCycle), so such a tree has no `Goal` to pass in.
- Github.RepoTree: one issue order drives all four `range r.issues` loops (github.go:240, 282, 385, 397). `r.issues` is a Go map, so each loop draws its own random order. The same holds for GithubBuild.RepoAsTree. The order of child lists is not claimed beyond that (`Reordered`). The order-dependent outcomes are not modelled for mixed orders: which of two conflicting parents wins, and which error is reported first.
- Markdown.DocExample: covers markdown_test.go's `basic` case except its `## Level 2:` section (markdown_test.go:30-46, the bullet lists under `Level 2` and `### Level 3:`). That section and the other cases (okr1, okr2, okr3) are not computed. Their block kinds are the ones computed here, and their behaviour is stated generally by DocFold, ListTree, ItemTreeFields and ListLoopItem.
- `Markdown.DocToTree` requires every `Strong` child of a paragraph to have at least one child of its own (of any kind), because Go reads that first child of every `Strong` (markdown.go:150) without checking that it exists.

## Findings

| source | as written | input that shows it | evidently intended | confidence | as-written member | corrected member |
|---|---|---|---|---|---|---|
| github.go:339 | `len(sub) == 4 && sub[2] == "issues" \|\| sub[2] == "pull"` groups as `(A && B) \|\| C`: `sub[2]` is read without a length check, and any path with `pull` third gets a title | a github.com link whose path is `octo` (panic: index out of range), `octo/app/pull` (panic on `sub[3]`), or `octo/app/pull/5/files` (titled `octo/app#5` though it is not a pull request page) | a title only for `org/repo/issues/n` and `org/repo/pull/n` | not executed | Github.TitleAsWritten (exhibited by Github.TitleAsWrittenCounterexamples) | Github.IssueTitle (used by Github.SynthLink) |

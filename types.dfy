/** Value types shared by the whole model: the node record of nodes.go:72-82, links, progress. */
module Types {

  datatype Option<+T> = None | Some(value: T)

  /** Outcome of an operation that can fail with an error value. */
  datatype Result<+R, +E> = Ok(value: R) | Err(error: E)

  /** A node is addressed by its index in the tree's node store: Go's *Node pointer identity. */
  type Handle = nat

  /** Go's 64-bit `int`: the largest value strconv.Atoi / ParseInt accept. */
  const MaxInt: int := 0x7FFF_FFFF_FFFF_FFFF

  /** A labelled reference to the source of a node (issue "#12" -> its URL). */
  datatype Link = Link(title: string, url: string)

  const NoLink: Link := Link("", "")

  /** nodes.go:116-119. */
  datatype Progress = Progress(done: int, total: int)
  {
    /** nodes.go:121-123: done when every part is done. */
    predicate IsDone() { done == total }
  }

  const NoProgress: Progress := Progress(0, 0)

  /**
   * The node record, generic in how a child is referenced: by handle inside a tree's
   * store, or by value in a finished tree (`Goal`).
   */
  datatype Node<C> = Node(
    id: string,
    title: string,
    desc: string,
    link: Link,
    links: seq<Link>,
    priority: Option<int>,
    progress: Option<Progress>,
    sub: seq<C>,
    parent: Option<Link>)

  /** A node as stored in a tree: children are handles. */
  type Record = Node<Handle>

  /** `Node{}`: every field empty. */
  function Blank<C>(): Node<C>
  {
    Node("", "", "", NoLink, [], None, None, [], None)
  }

  /** A finished tree, by value: what a writer receives and what an issue body parses to. */
  datatype Goal = Goal(node: Node<Goal>)

  /** Number of nodes of a finished tree. */
  function Size(g: Goal): nat
  {
    1 + SizeAll(g.node.sub)
  }

  function SizeAll(gs: seq<Goal>): nat
  {
    if gs == [] then 0 else Size(gs[0]) + SizeAll(gs[1..])
  }

  /**
   * The placeholder test used when a document's root is collapsed: a node that carries
   * no id, title, description, link, priority or progress of its own. Its definition is
   * not in the modelled sources; this is the reading of "proxy node" adopted here.
   */
  predicate IsProxy<C>(n: Node<C>)
  {
    n.id == "" && n.title == "" && n.desc == "" && n.link == NoLink
    && n.priority.None? && n.progress.None?
  }
}

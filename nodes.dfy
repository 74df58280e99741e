/**
 * The tree a host exposes through its visitor (src/lib.rs: `Node`, `List`,
 * `Action`, `IVisit`). A visitor is the ordered sequence of the children it
 * passes to its callback; a List node carries its own children. Property and
 * Action nodes carry an identifier of the host storage or closure behind them.
 */
module Nodes {

  type PropId = nat
  type ActionId = nat

  datatype Node =
    | Prop(name: string, id: PropId)
    | List(name: string, kids: seq<Node>)
    | Action(name: string, act: ActionId)

  /** A node together with a full dotted path. */
  datatype Entry = Entry(path: string, node: Node)

  /** Every node of the forest, each parent before its children, siblings in visit order. */
  function PreOrder(kids: seq<Node>): (r: seq<Node>)
    decreases kids
  {
    if kids == [] then [] else PreOrderNode(kids[0]) + PreOrder(kids[1..])
  }

  function PreOrderNode(n: Node): (r: seq<Node>)
    ensures r != [] && r[0] == n
    decreases n
  {
    [n] + (if n.List? then PreOrder(n.kids) else [])
  }

  /** `prefix` joined by a dot in front of every path. */
  function Under(prefix: string, es: seq<Entry>): (r: seq<Entry>)
    ensures |r| == |es|
    ensures forall k :: 0 <= k < |es| ==> r[k] == Entry(prefix + "." + es[k].path, es[k].node)
  {
    if es == [] then [] else [Entry(prefix + "." + es[0].path, es[0].node)] + Under(prefix, es[1..])
  }

  /**
   * Reference addressing: every node with the path that names it, a child of
   * a List being addressed as the List's path, a dot, then its own name.
   */
  function Enumerate(kids: seq<Node>): (r: seq<Entry>)
    decreases kids
  {
    if kids == [] then [] else EnumerateNode(kids[0]) + Enumerate(kids[1..])
  }

  function EnumerateNode(n: Node): (r: seq<Entry>)
    decreases n
  {
    [Entry(n.name, n)] + (if n.List? then Under(n.name, Enumerate(n.kids)) else [])
  }

  /** The nodes, in order, of the entries whose path is `p`. */
  function Select(es: seq<Entry>, p: string): (r: seq<Node>)
    ensures |r| <= |es|
  {
    if es == [] then []
    else (if es[0].path == p then [es[0].node] else []) + Select(es[1..], p)
  }

  function NodesOf(es: seq<Entry>): (r: seq<Node>)
    ensures |r| == |es|
    ensures forall k :: 0 <= k < |es| ==> r[k] == es[k].node
  {
    if es == [] then [] else [es[0].node] + NodesOf(es[1..])
  }

  lemma {:induction false} SelectConcat(a: seq<Entry>, b: seq<Entry>, p: string)
    ensures Select(a + b, p) == Select(a, p) + Select(b, p)
  {
    if a != [] {
      assert (a + b)[1..] == a[1..] + b;
      SelectConcat(a[1..], b, p);
      assert (a + b)[0] == a[0];
    } else {
      assert a + b == b;
    }
  }

  lemma {:induction false} UnderConcat(prefix: string, a: seq<Entry>, b: seq<Entry>)
    ensures Under(prefix, a + b) == Under(prefix, a) + Under(prefix, b)
  {
  }

  lemma {:induction false} NodesOfConcat(a: seq<Entry>, b: seq<Entry>)
    ensures NodesOf(a + b) == NodesOf(a) + NodesOf(b)
  {
  }

  lemma {:induction false} PreOrderConcat(a: seq<Node>, b: seq<Node>)
    ensures PreOrder(a + b) == PreOrder(a) + PreOrder(b)
  {
    if a != [] {
      assert (a + b)[1..] == a[1..] + b;
      PreOrderConcat(a[1..], b);
      assert (a + b)[0] == a[0];
    } else {
      assert a + b == b;
    }
  }

  lemma {:induction false} EnumerateConcat(a: seq<Node>, b: seq<Node>)
    ensures Enumerate(a + b) == Enumerate(a) + Enumerate(b)
  {
    if a != [] {
      assert (a + b)[1..] == a[1..] + b;
      EnumerateConcat(a[1..], b);
      assert (a + b)[0] == a[0];
    } else {
      assert a + b == b;
    }
  }
}

/**
 * Path resolution and tree walking (src/console.rs: `find`/`find_rec`,
 * `walk`/`walk_rec`).
 *
 * `Find` and `Walk` are the functions that specify what the callbacks are
 * called with, in call order; `FindRec` and `Walker.WalkRec` are the loops
 * of the source, proved to make exactly those calls.
 */
module Resolve {
  import opened ComparePath
  import opened Nodes

  /**
   * The nodes `find_rec` hands to its callback, in call order: a child whose
   * name equals the path is reported (a List is not entered); on a partial
   * match only a List is entered, with the tail; anything else is skipped.
   */
  function Find(kids: seq<Node>, path: string): (r: seq<Node>)
    ensures |r| <= |PreOrder(kids)|
    decreases kids
  {
    if kids == [] then [] else FindNode(kids[0], path) + Find(kids[1..], path)
  }

  function FindNode(n: Node, path: string): (r: seq<Node>)
    ensures |r| <= |PreOrderNode(n)|
    ensures path == n.name ==> r == [n]
    decreases n
  {
    match Cmp(path, n.name)
    case True => [n]
    case Part(tail) => if n.List? then Find(n.kids, tail) else []
    case False => []
  }

  lemma {:induction false} FindConcat(a: seq<Node>, b: seq<Node>, path: string)
    ensures Find(a + b, path) == Find(a, path) + Find(b, path)
  {
    if a != [] {
      assert (a + b)[1..] == a[1..] + b;
      assert (a + b)[0] == a[0];
      FindConcat(a[1..], b, path);
      ConcatAssoc(FindNode(a[0], path), Find(a[1..], path), Find(b, path));
    } else {
      assert a + b == b;
    }
  }

  /** Every path of `Under(n, es)` continues `n` with a dot: only a partial match can select one. */
  lemma {:induction false} SelectUnder(n: string, es: seq<Entry>, p: string)
    ensures Select(Under(n, es), p) == (match Cmp(p, n) case Part(t) => Select(es, t) case _ => [])
  {
    if es != [] {
      SelectUnder(n, es[1..], p);
      var q := es[0].path;
      assert Under(n, es)[1..] == Under(n, es[1..]);
      CmpPartIff(n + "." + q, n, q);
      match Cmp(p, n)
      case Part(t) =>
        CmpPartIff(p, n, t);
        assert (n + "." + q == p) <==> (q == t) by {
          if n + "." + q == p {
            assert (n + "." + q)[|n| + 1..] == q;
          }
        }
      case _ =>
        if n + "." + q == p {
          CmpPartIff(p, n, q);
        }
    }
  }

  /**
   * Resolving a path reports exactly the nodes whose full dotted path
   * (ancestor names and own name joined by dots) is that path, in pre-order.
   */
  lemma {:induction false} FindIsSelect(kids: seq<Node>, p: string)
    ensures Find(kids, p) == Select(Enumerate(kids), p)
    decreases kids
  {
    if kids != [] {
      FindNodeIsSelect(kids[0], p);
      FindIsSelect(kids[1..], p);
      SelectConcat(EnumerateNode(kids[0]), Enumerate(kids[1..]), p);
    }
  }

  lemma {:induction false} FindNodeIsSelect(n: Node, p: string)
    ensures FindNode(n, p) == Select(EnumerateNode(n), p)
    decreases n
  {
    var below := if n.List? then Under(n.name, Enumerate(n.kids)) else [];
    SelectConcat([Entry(n.name, n)], below, p);
    if n.List? {
      SelectUnder(n.name, Enumerate(n.kids), p);
      match Cmp(p, n.name)
      case Part(t) => FindIsSelect(n.kids, t);
      case _ =>
    }
  }

  /** The path buffer rule of `walk_rec`: a dot only after a non-empty parent. */
  function Join(parent: string, name: string): (r: string)
    ensures |parent| == 0 ==> r == name
    ensures |parent| > 0 ==> Cmp(r, parent) == Part(name)
  {
    if |parent| > 0 then parent + "." + name else name
  }

  /** The (path, node) pairs `walk_rec` hands to its callback, in call order. */
  function Walk(kids: seq<Node>, parent: string): (r: seq<Entry>)
    ensures |r| == |PreOrder(kids)|
    decreases kids
  {
    if kids == [] then [] else WalkNode(kids[0], parent) + Walk(kids[1..], parent)
  }

  function WalkNode(n: Node, parent: string): (r: seq<Entry>)
    ensures |r| == |PreOrderNode(n)|
    ensures r[0] == Entry(Join(parent, n.name), n)
    decreases n
  {
    var p := Join(parent, n.name);
    [Entry(p, n)] + (if n.List? then Walk(n.kids, p) else [])
  }

  lemma {:induction false} WalkConcat(a: seq<Node>, b: seq<Node>, parent: string)
    ensures Walk(a + b, parent) == Walk(a, parent) + Walk(b, parent)
  {
    if a != [] {
      assert (a + b)[1..] == a[1..] + b;
      WalkConcat(a[1..], b, parent);
      assert (a + b)[0] == a[0];
      ConcatAssoc(WalkNode(a[0], parent), Walk(a[1..], parent), Walk(b, parent));
    } else {
      assert a + b == b;
    }
  }

  /** Walk reports every node exactly once, parents before children, in visit order. */
  lemma {:induction false} WalkVisitsPreOrder(kids: seq<Node>, parent: string)
    ensures NodesOf(Walk(kids, parent)) == PreOrder(kids)
    decreases kids
  {
    if kids != [] {
      WalkNodeVisitsPreOrder(kids[0], parent);
      WalkVisitsPreOrder(kids[1..], parent);
      NodesOfConcat(WalkNode(kids[0], parent), Walk(kids[1..], parent));
    }
  }

  lemma {:induction false} WalkNodeVisitsPreOrder(n: Node, parent: string)
    ensures NodesOf(WalkNode(n, parent)) == PreOrderNode(n)
    decreases n
  {
    var p := Join(parent, n.name);
    if n.List? {
      WalkVisitsPreOrder(n.kids, p);
      NodesOfConcat([Entry(p, n)], Walk(n.kids, p));
    }
  }

  /** Below a non-empty path, walk's paths are the reference paths with that prefix. */
  lemma {:induction false} WalkUnderParent(kids: seq<Node>, parent: string)
    requires |parent| > 0
    ensures Walk(kids, parent) == Under(parent, Enumerate(kids))
    decreases kids
  {
    if kids != [] {
      WalkNodeUnderParent(kids[0], parent);
      WalkUnderParent(kids[1..], parent);
      UnderConcat(parent, EnumerateNode(kids[0]), Enumerate(kids[1..]));
    }
  }

  lemma {:induction false} WalkNodeUnderParent(n: Node, parent: string)
    requires |parent| > 0
    ensures WalkNode(n, parent) == Under(parent, EnumerateNode(n))
    decreases n
  {
    var p := parent + "." + n.name;
    if n.List? {
      WalkUnderParent(n.kids, p);
      UnderNested(parent, n.name, Enumerate(n.kids));
      UnderConcat(parent, [Entry(n.name, n)], Under(n.name, Enumerate(n.kids)));
    }
  }

  lemma {:induction false} UnderNested(a: string, b: string, es: seq<Entry>)
    ensures Under(a + "." + b, es) == Under(a, Under(b, es))
  {
    forall k | 0 <= k < |es|
      ensures Under(a + "." + b, es)[k] == Under(a, Under(b, es))[k]
    {
      assert a + "." + b + "." + es[k].path == a + "." + (b + "." + es[k].path);
    }
  }

  /** No List directly under the root has the empty name. */
  predicate NoEmptyTopList(kids: seq<Node>)
  {
    forall k :: 0 <= k < |kids| && kids[k].List? ==> kids[k].name != ""
  }

  /**
   * Unless a top-level List is named "", walk's paths are the reference
   * paths, so the paths walk prints are exactly the paths find resolves.
   */
  lemma {:induction false} WalkIsEnumerate(kids: seq<Node>)
    requires NoEmptyTopList(kids)
    ensures Walk(kids, "") == Enumerate(kids)
    ensures forall p :: Find(kids, p) == Select(Walk(kids, ""), p)
  {
    if kids != [] {
      var n := kids[0];
      WalkIsEnumerate(kids[1..]);
      if n.List? {
        WalkUnderParent(n.kids, n.name);
      }
    }
    forall p ensures Find(kids, p) == Select(Walk(kids, ""), p) {
      FindIsSelect(kids, p);
    }
  }

  /**
   * Under a top-level List named "", walk prints a child's bare name, while
   * find only reaches that child through a leading dot.
   */
  lemma EmptyListNameWalkVersusFind()
    ensures Walk([List("", [Prop("x", 0)])], "") == [Entry("", List("", [Prop("x", 0)])), Entry("x", Prop("x", 0))]
    ensures Find([List("", [Prop("x", 0)])], "x") == []
    ensures Find([List("", [Prop("x", 0)])], ".x") == [Prop("x", 0)]
  {
    var inner := [Prop("x", 0)];
    assert Walk(inner, "") == [Entry("x", Prop("x", 0))];
    assert Cmp("x", "") == False;
    CmpPartIff(".x", "", "x");
    assert Find(inner, "x") == [Prop("x", 0)];
  }

  /**
   * `find_rec`: visits the children in order, keeping the captured `found`
   * flag; `matches` are the callback invocations.
   */
  method FindRec(kids: seq<Node>, path: string) returns (found: bool, matches: seq<Node>)
    ensures matches == Find(kids, path)
    ensures found <==> matches != []
    decreases kids
  {
    found, matches := false, [];
    var i := 0;
    while i < |kids|
      invariant 0 <= i <= |kids|
      invariant matches == Find(kids[..i], path)
      invariant found <==> matches != []
    {
      var node := kids[i];
      match Cmp(path, node.name) {
        case True =>
          matches := matches + [node];
          found := true;
        case Part(tail) =>
          if node.List? {
            var f, m := FindRec(node.kids, tail);
            found := found || f;
            matches := matches + m;
          }
        case False =>
      }
      FindStep(kids, i, path);
      i := i + 1;
    }
    assert kids[..i] == kids;
  }

  /** `Find` over a first sibling and the rest. */
  lemma FindCons(n: Node, rest: seq<Node>, path: string)
    ensures Find([n] + rest, path) == FindNode(n, path) + Find(rest, path)
  {
    assert ([n] + rest)[1..] == rest;
  }

  /** `Find` over one more sibling. */
  lemma FindStep(kids: seq<Node>, i: nat, path: string)
    requires i < |kids|
    ensures Find(kids[..i + 1], path) == Find(kids[..i], path) + FindNode(kids[i], path)
  {
    FindCons(kids[i], [], path);
    assert [kids[i]] + [] == [kids[i]];
    FindConcat(kids[..i], [kids[i]], path);
    assert kids[..i + 1] == kids[..i] + [kids[i]];
  }

  /** `find`: whether any node matched, and the callback invocations. */
  method FindPath(root: seq<Node>, path: string) returns (found: bool, matches: seq<Node>)
    ensures found <==> exists k :: 0 <= k < |Enumerate(root)| && Enumerate(root)[k].path == path
    ensures matches == Select(Enumerate(root), path)
  {
    found, matches := FindRec(root, path);
    FindIsSelect(root, path);
    SelectNonEmpty(Enumerate(root), path);
  }

  lemma {:induction false} SelectNonEmpty(es: seq<Entry>, p: string)
    ensures Select(es, p) != [] <==> exists k :: 0 <= k < |es| && es[k].path == p
  {
    if es != [] {
      SelectNonEmpty(es[1..], p);
      if es[0].path != p && exists k :: 0 <= k < |es| && es[k].path == p {
        var k :| 0 <= k < |es| && es[k].path == p;
        assert es[1..][k - 1].path == p;
      }
      if exists k :: 0 <= k < |es[1..]| && es[1..][k].path == p {
        var k :| 0 <= k < |es[1..]| && es[1..][k].path == p;
        assert es[k + 1].path == p;
      }
    }
  }

  /** The shared path buffer of `walk_rec` and the calls made to the walk callback. */
  class Walker {
    var path: string
    var seen: seq<Entry>

    constructor ()
      ensures path == "" && seen == []
    {
      path, seen := "", [];
    }

    /**
     * `walk_rec`: per child, push "." (if the buffer is non-empty) and the
     * name, report, recurse into a List, then truncate back.
     */
    method WalkRec(kids: seq<Node>)
      modifies this
      ensures path == old(path)
      ensures seen == old(seen) + Walk(kids, old(path))
      decreases kids
    {
      var i := 0;
      while i < |kids|
        invariant 0 <= i <= |kids|
        invariant path == old(path)
        invariant seen == old(seen) + Walk(kids[..i], old(path))
        decreases |kids| - i
      {
        var node := kids[i];
        var len := |path|;
        if len > 0 {
          path := path + ".";
        }
        path := path + node.name;
        ghost var p := path;
        assert p == Join(old(path), node.name) && p[..len] == old(path);
        ghost var before := seen;
        seen := seen + [Entry(path, node)];
        if node.List? {
          WalkRec(node.kids);
        }
        path := path[..len];
        WalkStep(kids, i, old(path), old(seen), before, seen);
        i := i + 1;
      }
      assert kids[..i] == kids;
    }
  }

  /** One more child of `walk_rec`: its entry, then (for a List) its subtree under the extended path. */
  lemma WalkStep(kids: seq<Node>, i: nat, parent: string, start: seq<Entry>, before: seq<Entry>, after: seq<Entry>)
    requires i < |kids|
    requires before == start + Walk(kids[..i], parent)
    requires after == before + [Entry(Join(parent, kids[i].name), kids[i])] +
      (if kids[i].List? then Walk(kids[i].kids, Join(parent, kids[i].name)) else [])
    ensures after == start + Walk(kids[..i + 1], parent)
  {
    var node := kids[i];
    var p := Join(parent, node.name);
    var sub := if node.List? then Walk(node.kids, p) else [];
    assert WalkNode(node, parent) == [Entry(p, node)] + sub;
    WalkOne(node, parent);
    WalkConcat(kids[..i], [node], parent);
    assert kids[..i + 1] == kids[..i] + [node];
    ConcatAssoc(before, [Entry(p, node)], sub);
    ConcatAssoc(start, Walk(kids[..i], parent), WalkNode(node, parent));
  }

  lemma WalkOne(n: Node, parent: string)
    ensures Walk([n], parent) == WalkNode(n, parent)
  {
    assert [n][1..] == [];
    assert Walk([n], parent) == WalkNode(n, parent) + Walk([], parent);
  }

  lemma ConcatAssoc<X>(a: seq<X>, b: seq<X>, c: seq<X>)
    ensures a + b + c == a + (b + c)
  {
  }

  /** `walk`: a fresh empty buffer, then the whole tree. */
  method WalkTree(root: seq<Node>) returns (entries: seq<Entry>)
    ensures entries == Walk(root, "")
    ensures NodesOf(entries) == PreOrder(root)
  {
    var w := new Walker();
    w.WalkRec(root);
    entries := w.seen;
    WalkVisitsPreOrder(root, "");
  }
}

/**
 * The console façade of src/console.rs: `set`, `get`, `reset`, `reset_all`
 * and `invoke`, each a `find` (or a visit) whose callback updates captured
 * state per matched node.
 *
 * The host's tree is fixed while an operation runs (names and shape do not
 * depend on property values), so the callback sequence is `Find`'s result
 * and each operation is a loop over it. Property storage is a map from
 * property id to value; two nodes bound to one variable share an id.
 * Action bodies are not modelled: an invocation is recorded in `log`.
 */
module Console {
  import opened Wrappers
  import opened Nodes
  import opened ComparePath
  import opened Resolve
  import opened Props

  datatype Invocation = Invocation(act: ActionId, args: string)

  /** The ids of the Property nodes in a sequence of nodes. */
  function PropsIn(ns: seq<Node>): set<PropId>
  {
    set k | 0 <= k < |ns| && ns[k].Prop? :: ns[k].id
  }

  lemma PropsInConcat(a: seq<Node>, b: seq<Node>)
    ensures PropsIn(a + b) == PropsIn(a) + PropsIn(b)
  {
    forall id | id in PropsIn(a + b) ensures id in PropsIn(a) + PropsIn(b) {
      var k :| 0 <= k < |a + b| && (a + b)[k].Prop? && (a + b)[k].id == id;
      if k >= |a| {
        assert b[k - |a|] == (a + b)[k];
      }
    }
    forall id | id in PropsIn(b) ensures id in PropsIn(a + b) {
      var k :| 0 <= k < |b| && b[k].Prop? && b[k].id == id;
      assert (a + b)[k + |a|] == b[k];
    }
    forall id | id in PropsIn(a) ensures id in PropsIn(a + b) {
      var k :| 0 <= k < |a| && a[k].Prop? && a[k].id == id;
      assert (a + b)[k] == a[k];
    }
  }

  lemma PropsInOne(n: Node)
    ensures PropsIn([n]) == if n.Prop? then {n.id} else {}
  {
    assert [n][0] == n;
  }

  /** The property ids in a forest: those of the Property nodes of its pre-order. */
  function PropIds(kids: seq<Node>): (r: set<PropId>)
    ensures forall k :: 0 <= k < |kids| ==> NodeIds(kids[k]) <= r
    ensures r == PropsIn(PreOrder(kids))
    decreases kids
  {
    if kids == [] then {}
    else
      PropsInConcat(PreOrderNode(kids[0]), PreOrder(kids[1..]));
      NodeIds(kids[0]) + PropIds(kids[1..])
  }

  /** The property ids a node stands for: its own, or those of its subtree. */
  function NodeIds(n: Node): (r: set<PropId>)
    ensures r == PropsIn(PreOrderNode(n))
    decreases n
  {
    PropsInConcat([n], if n.List? then PreOrder(n.kids) else []);
    PropsInOne(n);
    match n
    case Prop(_, id) => {id}
    case List(_, kids) => PropIds(kids)
    case Action(_, _) => {}
  }

  /** The ids of the Property nodes among the matches. */
  function MatchedProps(ms: seq<Node>): (r: set<PropId>)
    ensures forall k :: 0 <= k < |ms| && ms[k].Prop? ==> ms[k].id in r
  {
    if ms == [] then {}
    else
      var init := ms[..|ms| - 1];
      assert forall k :: 0 <= k < |init| ==> init[k] == ms[k];
      MatchedProps(init) + (if ms[|ms| - 1].Prop? then {ms[|ms| - 1].id} else {})
  }

  /** The ids a reset of the matches reaches: matched Properties and everything under matched Lists. */
  function ResetTargets(ms: seq<Node>): (r: set<PropId>)
    ensures forall k :: 0 <= k < |ms| ==> NodeIds(ms[k]) <= r
  {
    if ms == [] then {}
    else
      var init := ms[..|ms| - 1];
      assert forall k :: 0 <= k < |init| ==> init[k] == ms[k];
      ResetTargets(init) + NodeIds(ms[|ms| - 1])
  }

  /** The last Property node among the matches, whose outcome `set` and `get` report. */
  function LastProp(ms: seq<Node>): (r: Option<PropId>)
    ensures r.None? <==> forall k :: 0 <= k < |ms| ==> !ms[k].Prop?
  {
    if ms == [] then None
    else if ms[|ms| - 1].Prop? then Some(ms[|ms| - 1].id)
    else
      var init := ms[..|ms| - 1];
      assert forall k :: 0 <= k < |init| ==> init[k] == ms[k];
      LastProp(init)
  }

  /** The id `LastProp` reports is that of a matched Property with no Property after it. */
  lemma {:induction false} LastPropIsLast(ms: seq<Node>)
    requires LastProp(ms).Some?
    ensures exists k :: 0 <= k < |ms| && ms[k].Prop? && ms[k].id == LastProp(ms).value &&
                        forall j :: k < j < |ms| ==> !ms[j].Prop?
  {
    var last := |ms| - 1;
    if ms[last].Prop? {
      assert ms[last].id == LastProp(ms).value;
    } else {
      var init := ms[..last];
      assert LastProp(ms) == LastProp(init);
      LastPropIsLast(init);
      var k :| 0 <= k < |init| && init[k].Prop? && init[k].id == LastProp(init).value &&
                forall j :: k < j < |init| ==> !init[j].Prop?;
      assert ms[k] == init[k];
      assert forall j :: k < j < |ms| ==> !ms[j].Prop?;
    }
  }

  /** The actions among the matches, each invoked with the same argument text, in match order. */
  function Calls(ms: seq<Node>, args: string): (r: seq<Invocation>)
    ensures |r| <= |ms|
    ensures r == [] <==> forall k :: 0 <= k < |ms| ==> !ms[k].Action?
  {
    if ms == [] then []
    else
      var init := ms[..|ms| - 1];
      assert forall k :: 0 <= k < |init| ==> init[k] == ms[k];
      Calls(init, args) + (if ms[|ms| - 1].Action? then [Invocation(ms[|ms| - 1].act, args)] else [])
  }

  lemma {:induction false} MatchedPropsConcat(a: seq<Node>, b: seq<Node>)
    ensures MatchedProps(a + b) == MatchedProps(a) + MatchedProps(b)
    decreases |b|
  {
    if b == [] {
      assert a + b == a;
    } else {
      MatchedPropsConcat(a, b[..|b| - 1]);
      assert (a + b)[..|a + b| - 1] == a + b[..|b| - 1];
      assert (a + b)[|a + b| - 1] == b[|b| - 1];
    }
  }

  lemma {:induction false} ResetTargetsConcat(a: seq<Node>, b: seq<Node>)
    ensures ResetTargets(a + b) == ResetTargets(a) + ResetTargets(b)
    decreases |b|
  {
    if b == [] {
      assert a + b == a;
    } else {
      ResetTargetsConcat(a, b[..|b| - 1]);
      assert (a + b)[..|a + b| - 1] == a + b[..|b| - 1];
      assert (a + b)[|a + b| - 1] == b[|b| - 1];
    }
  }

  lemma {:induction false} PropIdsConcat(a: seq<Node>, b: seq<Node>)
    ensures PropIds(a + b) == PropIds(a) + PropIds(b)
  {
    if a != [] {
      assert (a + b)[1..] == a[1..] + b;
      PropIdsConcat(a[1..], b);
      assert (a + b)[0] == a[0];
    } else {
      assert a + b == b;
    }
  }

  /** Everything `find` reports lies in the tree searched: a reset of the matches stays within its ids. */
  lemma {:induction false} FindWithin(kids: seq<Node>, path: string)
    ensures ResetTargets(Find(kids, path)) <= PropIds(kids)
    ensures MatchedProps(Find(kids, path)) <= PropIds(kids)
    decreases kids
  {
    if kids != [] {
      FindNodeWithin(kids[0], path);
      FindWithin(kids[1..], path);
      ResetTargetsConcat(FindNode(kids[0], path), Find(kids[1..], path));
      MatchedPropsConcat(FindNode(kids[0], path), Find(kids[1..], path));
    }
  }

  lemma {:induction false} FindNodeWithin(n: Node, path: string)
    ensures ResetTargets(FindNode(n, path)) <= NodeIds(n)
    ensures MatchedProps(FindNode(n, path)) <= NodeIds(n)
    decreases n
  {
    match Cmp(path, n.name)
    case True =>
      assert FindNode(n, path) == [n];
    case Part(tail) =>
      if n.List? {
        FindWithin(n.kids, tail);
      }
    case False =>
  }

  /** The value map after setting `val` on each property in `ids`. */
  function SetAt<T>(specs: map<PropId, PropSpec<T>>, values: map<PropId, T>, ids: set<PropId>, val: string): (r: map<PropId, T>)
    requires values.Keys <= specs.Keys
    ensures r.Keys == values.Keys
    ensures forall id :: id in values && id !in ids ==> r[id] == values[id]
    ensures forall id :: id in ids && id in r ==> AfterSet(specs[id], r[id], val).variable == r[id]
  {
    map id | id in values :: if id in ids then AfterSet(specs[id], values[id], val).variable else values[id]
  }

  /** The value map after resetting each property in `ids`. */
  function ResetAt<T>(specs: map<PropId, PropSpec<T>>, values: map<PropId, T>, ids: set<PropId>): (r: map<PropId, T>)
    requires values.Keys <= specs.Keys
    ensures r.Keys == values.Keys
    ensures forall id :: id in values && id !in ids ==> r[id] == values[id]
    ensures forall id :: id in ids && id in r && !specs[id].kind.ReadOnly? ==> StateOf(specs[id], r[id]) == Default
  {
    map id | id in values :: if id in ids then AfterReset(specs[id], values[id]) else values[id]
  }

  /** The value map after `set` visits the matches in order, each matched Property setting its value. */
  function SetMatches<T>(specs: map<PropId, PropSpec<T>>, values: map<PropId, T>, ms: seq<Node>, val: string): (r: map<PropId, T>)
    requires values.Keys <= specs.Keys && MatchedProps(ms) <= values.Keys
    ensures r.Keys == values.Keys
  {
    if ms == [] then values
    else
      var prev := SetMatches(specs, values, ms[..|ms| - 1], val);
      var n := ms[|ms| - 1];
      if n.Prop? then prev[n.id := AfterSet(specs[n.id], prev[n.id], val).variable] else prev
  }

  /** `SetMatches` over one more match. */
  lemma SetMatchesStep<T>(specs: map<PropId, PropSpec<T>>, values: map<PropId, T>, ms: seq<Node>, i: nat, val: string)
    requires i < |ms| && values.Keys <= specs.Keys && MatchedProps(ms[..i + 1]) <= values.Keys
    ensures MatchedProps(ms[..i]) <= values.Keys
    ensures var prev := SetMatches(specs, values, ms[..i], val);
      SetMatches(specs, values, ms[..i + 1], val) ==
        if ms[i].Prop? then prev[ms[i].id := AfterSet(specs[ms[i].id], prev[ms[i].id], val).variable] else prev
  {
    assert ms[..i + 1][..i] == ms[..i];
  }

  /** Visiting the matches in order is one batch over their property ids: repeats and order do not matter. */
  lemma {:induction false} SetMatchesIsSetAt<T>(specs: map<PropId, PropSpec<T>>, values: map<PropId, T>, ms: seq<Node>, val: string)
    requires values.Keys <= specs.Keys && MatchedProps(ms) <= values.Keys
    ensures SetMatches(specs, values, ms, val) == SetAt(specs, values, MatchedProps(ms), val)
  {
    if ms != [] {
      var i := |ms| - 1;
      var init, n := ms[..i], ms[i];
      assert ms[..i + 1] == ms;
      MatchStep(ms, i);
      SetMatchesStep(specs, values, ms, i, val);
      SetMatchesIsSetAt(specs, values, init, val);
      if n.Prop? {
        SetAtStep(specs, values, MatchedProps(init), n.id, val);
      } else {
        assert MatchedProps(ms) == MatchedProps(init);
        assert SetMatches(specs, values, ms, val) == SetMatches(specs, values, init, val);
      }
    } else {
      assert SetAt(specs, values, {}, val) == values;
    }
  }

  /**
   * What one property's `set` reports to the façade: `Ok(true)` when the
   * value was accepted, else the text the property wrote.
   */
  function SetReply<T>(spec: PropSpec<T>, val: string): (r: Result<bool, string>)
    ensures r == Ok(true) <==> !spec.kind.ReadOnly? && spec.parse(val).Ok?
    ensures r.Ok? ==> r.value
    ensures spec.kind.ReadOnly? ==> r == Err(ReadOnlyMessage)
  {
    if spec.kind.ReadOnly? then Err(ReadOnlyMessage)
    else
      match spec.parse(val)
      case Ok(_) => Ok(true)
      case Err(e) => Err(e)
  }

  /** What `set` returns after visiting the matches: the reply of the last matched Property, `Ok(false)` when none. */
  function SetResult<T>(specs: map<PropId, PropSpec<T>>, ms: seq<Node>, val: string): (r: Result<bool, string>)
    requires MatchedProps(ms) <= specs.Keys
    ensures match LastProp(ms)
            case None => r == Ok(false)
            case Some(id) => id in specs && r == SetReply(specs[id], val)
  {
    if ms == [] then Ok(false)
    else
      var n := ms[|ms| - 1];
      if n.Prop? then SetReply(specs[n.id], val) else SetResult(specs, ms[..|ms| - 1], val)
  }

  /** `SetResult` over one more match. */
  lemma SetResultStep<T>(specs: map<PropId, PropSpec<T>>, ms: seq<Node>, i: nat, val: string)
    requires i < |ms| && MatchedProps(ms[..i + 1]) <= specs.Keys
    ensures MatchedProps(ms[..i]) <= specs.Keys
    ensures SetResult(specs, ms[..i + 1], val) ==
      if ms[i].Prop? then SetReply(specs[ms[i].id], val) else SetResult(specs, ms[..i], val)
  {
    assert ms[..i + 1][..i] == ms[..i];
  }

  /** What `get` returns: the displayed value of the last matched Property, `None` when none matched. */
  function GetResult<T>(specs: map<PropId, PropSpec<T>>, values: map<PropId, T>, ms: seq<Node>): (r: Option<string>)
    requires values.Keys <= specs.Keys && MatchedProps(ms) <= values.Keys
    ensures r.None? <==> forall k :: 0 <= k < |ms| ==> !ms[k].Prop?
    ensures match LastProp(ms)
            case None => r == None
            case Some(id) => id in values && r == Some(specs[id].show(values[id]))
  {
    if ms == [] then None
    else
      var n := ms[|ms| - 1];
      if n.Prop? then Some(specs[n.id].show(values[n.id])) else GetResult(specs, values, ms[..|ms| - 1])
  }

  /** The reply is the property's outcome, whatever its current value. */
  lemma SetReplyIsOutcome<T>(spec: PropSpec<T>, variable: T, val: string)
    ensures SetReply(spec, val) ==
      if AfterSet(spec, variable, val).ok then Ok(true) else Err(AfterSet(spec, variable, val).written)
  {
  }

  /** Setting one more property after a batch: the batch with that id added (setting twice is setting once). */
  lemma SetAtStep<T>(specs: map<PropId, PropSpec<T>>, values: map<PropId, T>, ids: set<PropId>, id: PropId, val: string)
    requires values.Keys <= specs.Keys && id in values
    ensures SetAt(specs, values, ids + {id}, val) ==
      SetAt(specs, values, ids, val)[id := AfterSet(specs[id], SetAt(specs, values, ids, val)[id], val).variable]
  {
    SetIdempotent(specs[id], values[id], val);
  }

  /** Resetting one more property after a batch: the batch with that id added. */
  lemma ResetAtStep<T>(specs: map<PropId, PropSpec<T>>, values: map<PropId, T>, ids: set<PropId>, id: PropId)
    requires values.Keys <= specs.Keys && id in values
    ensures ResetAt(specs, values, ids + {id}) ==
      ResetAt(specs, values, ids)[id := AfterReset(specs[id], ResetAt(specs, values, ids)[id])]
  {
    ResetIdempotent(specs[id], values[id]);
  }

  /** Resetting no property changes nothing. */
  lemma ResetAtNone<T>(specs: map<PropId, PropSpec<T>>, values: map<PropId, T>)
    requires values.Keys <= specs.Keys
    ensures ResetAt(specs, values, {}) == values
  {
  }

  /** Two reset batches in a row are one batch over both sets of ids. */
  lemma ResetAtCompose<T>(specs: map<PropId, PropSpec<T>>, values: map<PropId, T>, a: set<PropId>, b: set<PropId>)
    requires values.Keys <= specs.Keys
    ensures ResetAt(specs, ResetAt(specs, values, a), b) == ResetAt(specs, values, a + b)
  {
    forall id | id in values
      ensures ResetAt(specs, ResetAt(specs, values, a), b)[id] == ResetAt(specs, values, a + b)[id]
    {
      ResetIdempotent(specs[id], values[id]);
    }
  }

  /** The `set` callback run over the matches in order, on the host's storage. */
  method SetEach<T>(specs: map<PropId, PropSpec<T>>, values: map<PropId, T>, ms: seq<Node>, val: string)
    returns (vs: map<PropId, T>, r: Result<bool, string>)
    requires values.Keys <= specs.Keys && MatchedProps(ms) <= values.Keys
    ensures vs == SetMatches(specs, values, ms, val)
    ensures r == SetResult(specs, ms, val)
  {
    vs, r := values, Ok(false);
    var i := 0;
    assert ms[..0] == [];
    while i < |ms|
      invariant 0 <= i <= |ms|
      invariant MatchedProps(ms[..i]) <= values.Keys
      invariant vs == SetMatches(specs, values, ms[..i], val)
      invariant r == SetResult(specs, ms[..i], val)
    {
      MatchStep(ms, i);
      assert ms[i].Prop? ==> ms[i].id in MatchedProps(ms);
      SetMatchesStep(specs, values, ms, i, val);
      SetResultStep(specs, ms, i, val);
      if ms[i].Prop? {
        var id := ms[i].id;
        var o := AfterSet(specs[id], vs[id], val);
        SetReplyIsOutcome(specs[id], vs[id], val);
        vs := vs[id := o.variable];
        r := if o.ok then Ok(true) else Err(o.written);
      }
      i := i + 1;
    }
    assert ms[..i] == ms;
  }

  /** A host structure: its fixed tree of nodes, the storage behind its properties, and its action log. */
  class Host<T(==)> {
    const root: seq<Node>
    const specs: map<PropId, PropSpec<T>>
    var values: map<PropId, T>
    var log: seq<Invocation>

    ghost predicate Valid()
      reads this
    {
      values.Keys == specs.Keys && PropIds(root) <= specs.Keys
    }

    constructor (root: seq<Node>, specs: map<PropId, PropSpec<T>>, values: map<PropId, T>)
      requires values.Keys == specs.Keys && PropIds(root) <= specs.Keys
      ensures Valid()
      ensures this.root == root && this.specs == specs && this.values == values && log == []
    {
      this.root, this.specs, this.values, this.log := root, specs, values, [];
    }

    /**
     * `set(root, path, val)`: every matched Property is set; the reply is
     * `Ok(false)` when no Property matched, else that of the last one.
     */
    method Set(path: string, val: string) returns (r: Result<bool, string>)
      requires Valid()
      modifies this
      ensures Valid() && log == old(log)
      ensures MatchedProps(Find(root, path)) <= specs.Keys
      ensures values == SetMatches(specs, old(values), Find(root, path), val)
      ensures r == SetResult(specs, Find(root, path), val)
    {
      var _, ms := FindRec(root, path);
      FindWithin(root, path);
      values, r := SetEach(specs, values, ms, val);
    }

    /** `get(root, path)`: the displayed value of the last matched Property, if any. */
    method Get(path: string) returns (r: Option<string>)
      requires Valid()
      ensures MatchedProps(Find(root, path)) <= values.Keys
      ensures r == GetResult(specs, values, Find(root, path))
    {
      var _, ms := FindRec(root, path);
      FindWithin(root, path);
      r := GetEach(specs, values, ms);
    }

    /**
     * `invoke(root, path, args, console)`: every matched Action is invoked
     * with the argument text, in match order; true iff one was.
     */
    method Invoke(path: string, args: string) returns (found: bool)
      requires Valid()
      modifies this
      ensures Valid() && values == old(values)
      ensures log == old(log) + Calls(Find(root, path), args)
      ensures found <==> exists k :: 0 <= k < |Find(root, path)| && Find(root, path)[k].Action?
    {
      var _, ms := FindRec(root, path);
      var calls;
      calls, found := CallEach(ms, args);
      log := log + calls;
    }

    /**
     * `reset_all(list)`: every Property in the subtree is reset, Lists are
     * entered, Actions ignored.
     */
    method ResetAll(kids: seq<Node>)
      requires Valid() && PropIds(kids) <= specs.Keys
      modifies this
      ensures Valid() && log == old(log)
      ensures values == ResetAt(specs, old(values), PropIds(kids))
    {
      values := ResetTree(specs, values, kids);
    }

    /**
     * `reset(root, path)`: matched Properties are reset, matched Lists are
     * reset entirely, matched Actions ignored; true iff anything matched.
     */
    method Reset(path: string) returns (found: bool)
      requires Valid()
      modifies this
      ensures Valid() && log == old(log)
      ensures found <==> Find(root, path) != []
      ensures values == ResetAt(specs, old(values), ResetTargets(Find(root, path)))
    {
      var ms;
      found, ms := FindRec(root, path);
      FindWithin(root, path);
      values := ResetEach(specs, values, ms);
    }
  }

  /** The `get` callback run over the matches in order: each Property overwrites the answer. */
  method GetEach<T>(specs: map<PropId, PropSpec<T>>, values: map<PropId, T>, ms: seq<Node>) returns (r: Option<string>)
    requires values.Keys <= specs.Keys && MatchedProps(ms) <= values.Keys
    ensures r == GetResult(specs, values, ms)
  {
    r := None;
    var i := 0;
    while i < |ms|
      invariant 0 <= i <= |ms|
      invariant MatchedProps(ms[..i]) <= values.Keys
      invariant r == GetResult(specs, values, ms[..i])
    {
      MatchStep(ms, i);
      assert ms[i].Prop? ==> ms[i].id in MatchedProps(ms);
      assert ms[..i + 1][..i] == ms[..i];
      if ms[i].Prop? {
        r := Some(specs[ms[i].id].show(values[ms[i].id]));
      }
      i := i + 1;
    }
    assert ms[..i] == ms;
  }

  /** The `invoke` callback run over the matches in order: each Action is called with the argument text. */
  method CallEach(ms: seq<Node>, args: string) returns (calls: seq<Invocation>, found: bool)
    ensures calls == Calls(ms, args)
    ensures found <==> exists k :: 0 <= k < |ms| && ms[k].Action?
  {
    calls, found := [], false;
    var i := 0;
    assert ms[..0] == [];
    while i < |ms|
      invariant 0 <= i <= |ms|
      invariant calls == Calls(ms[..i], args)
      invariant found <==> exists k :: 0 <= k < i && ms[k].Action?
    {
      CallsStep(ms, i, args);
      if ms[i].Action? {
        found := true;
        calls := calls + [Invocation(ms[i].act, args)];
      }
      i := i + 1;
    }
    assert ms[..i] == ms;
  }

  /** `Calls` over one more match. */
  lemma CallsStep(ms: seq<Node>, i: nat, args: string)
    requires i < |ms|
    ensures Calls(ms[..i + 1], args) == Calls(ms[..i], args) + (if ms[i].Action? then [Invocation(ms[i].act, args)] else [])
  {
    assert ms[..i + 1][..i] == ms[..i];
  }

  /** `reset_all` on the host's storage: the subtree's Properties reset in visiting order. */
  method ResetTree<T>(specs: map<PropId, PropSpec<T>>, values: map<PropId, T>, kids: seq<Node>) returns (vs: map<PropId, T>)
    requires values.Keys <= specs.Keys && PropIds(kids) <= values.Keys
    ensures vs == ResetAt(specs, values, PropIds(kids))
    decreases kids
  {
    vs := values;
    var i := 0;
    ResetAtNone(specs, values);
    assert kids[..0] == [];
    while i < |kids|
      invariant 0 <= i <= |kids|
      invariant PropIds(kids[..i]) <= values.Keys
      invariant vs == ResetAt(specs, values, PropIds(kids[..i]))
    {
      ResetAllStep(kids, i);
      assert NodeIds(kids[i]) <= PropIds(kids);
      vs := ResetNode(specs, vs, kids[i]);
      ResetAtCompose(specs, values, PropIds(kids[..i]), NodeIds(kids[i]));
      i := i + 1;
    }
    assert kids[..i] == kids;
  }

  /** One visited node of `reset_all` or `reset`: a Property is reset, a List reset entirely, an Action ignored. */
  method ResetNode<T>(specs: map<PropId, PropSpec<T>>, values: map<PropId, T>, n: Node) returns (vs: map<PropId, T>)
    requires values.Keys <= specs.Keys && NodeIds(n) <= values.Keys
    ensures vs == ResetAt(specs, values, NodeIds(n))
    decreases n
  {
    match n {
      case Prop(_, id) =>
        vs := values[id := AfterReset(specs[id], values[id])];
        ResetAtStep(specs, values, {}, id);
        ResetAtNone(specs, values);
      case List(_, sub) =>
        vs := ResetTree(specs, values, sub);
      case Action(_, _) =>
        vs := values;
        ResetAtNone(specs, values);
    }
  }

  /** The `reset` callback run over the matches in order: Properties reset, Lists reset entirely. */
  method ResetEach<T>(specs: map<PropId, PropSpec<T>>, values: map<PropId, T>, ms: seq<Node>) returns (vs: map<PropId, T>)
    requires values.Keys <= specs.Keys && ResetTargets(ms) <= values.Keys
    ensures vs == ResetAt(specs, values, ResetTargets(ms))
  {
    vs := values;
    var i := 0;
    ResetAtNone(specs, values);
    assert ResetTargets(ms[..0]) == {};
    while i < |ms|
      invariant 0 <= i <= |ms|
      invariant ResetTargets(ms[..i]) <= values.Keys
      invariant vs == ResetAt(specs, values, ResetTargets(ms[..i]))
    {
      ResetEachStep(ms, i);
      assert NodeIds(ms[i]) <= ResetTargets(ms);
      vs := ResetNode(specs, vs, ms[i]);
      ResetAtCompose(specs, values, ResetTargets(ms[..i]), NodeIds(ms[i]));
      i := i + 1;
    }
    assert ms[..i] == ms;
  }

  lemma ResetEachStep(ms: seq<Node>, i: nat)
    requires i < |ms|
    ensures ResetTargets(ms[..i + 1]) == ResetTargets(ms[..i]) + NodeIds(ms[i])
  {
    assert ms[..i + 1][..i] == ms[..i];
  }

  /** One more match: the folds over a prefix, extended by one node. */
  lemma MatchStep(ms: seq<Node>, i: nat)
    requires i < |ms|
    ensures MatchedProps(ms[..i + 1]) == MatchedProps(ms[..i]) + (if ms[i].Prop? then {ms[i].id} else {})
    ensures LastProp(ms[..i + 1]) == if ms[i].Prop? then Some(ms[i].id) else LastProp(ms[..i])
  {
    assert ms[..i + 1][..i] == ms[..i];
  }

  lemma ResetAllStep(kids: seq<Node>, i: nat)
    requires i < |kids|
    ensures PropIds(kids[..i + 1]) == PropIds(kids[..i]) + NodeIds(kids[i])
  {
    PropIdsConcat(kids[..i], [kids[i]]);
    assert kids[..i + 1] == kids[..i] + [kids[i]];
    assert PropIds([kids[i]]) == NodeIds(kids[i]);
  }

  /** The fields of `Foo` in src/tests.rs: properties `int`, `float`, `string` (ids 1..3) and the action `action`. */
  function FooKids(): (r: seq<Node>)
    ensures |r| == 4
    ensures forall k :: 0 <= k < |r| ==> !r[k].List?
    ensures forall i, j :: 0 <= i < j < |r| ==> r[i].name != r[j].name
  {
    [Prop("int", 1), Prop("float", 2), Prop("string", 3), Action("action", 0)]
  }

  /** The root of src/tests.rs: `foo.before` (id 0), the list `foo`, then `foo.after` (id 4). */
  function TestTree(): (r: seq<Node>)
    ensures |r| == 3 && r[1].List? && r[1].name == "foo"
    ensures Continues(r[0].name, r[1].name) && Continues(r[2].name, r[1].name)
  {
    [Prop("foo.before", 0), List("foo", FooKids()), Prop("foo.after", 4)]
  }

  /** A Property or Action answers only its own full name. */
  lemma LeafFindNode(n: Node, path: string)
    requires !n.List?
    ensures FindNode(n, path) == if path == n.name then [n] else []
  {
  }

  /** A List is entered with the rest of the path after its name and a dot. */
  lemma ListFindNode(name: string, kids: seq<Node>, path: string, tail: string)
    requires path == name + "." + tail
    ensures FindNode(List(name, kids), path) == Find(kids, tail)
  {
    CmpPartIff(path, name, tail);
  }

  /** `find` over three nodes is the three lookups in order. */
  lemma Find3(a: Node, b: Node, c: Node, path: string)
    ensures Find([a, b, c], path) == FindNode(a, path) + FindNode(b, path) + FindNode(c, path)
  {
    FindCons(c, [], path);
    FindCons(b, [c], path);
    FindCons(a, [b, c], path);
  }

  /** Inside `foo`, a name finds the field of that name, and nothing else. */
  lemma FooKidsFind(path: string)
    ensures Find(FooKids(), path) ==
      if path == "int" then [Prop("int", 1)]
      else if path == "float" then [Prop("float", 2)]
      else if path == "string" then [Prop("string", 3)]
      else if path == "action" then [Action("action", 0)]
      else []
  {
    var k := FooKids();
    assert k[1..] == [k[1], k[2], k[3]];
    Find3(k[1], k[2], k[3], path);
    LeafFindNode(k[0], path);
    LeafFindNode(k[1], path);
    LeafFindNode(k[2], path);
    LeafFindNode(k[3], path);
  }

  /** A path "foo.<tail>" other than the two top-level properties reaches exactly what `tail` finds inside `foo`. */
  lemma FooFind(path: string, tail: string)
    requires path == "foo." + tail
    requires tail != "before" && tail != "after"
    ensures Find(TestTree(), path) == Find(FooKids(), tail)
  {
    var t := TestTree();
    assert path != "foo.before" && path != "foo.after" by {
      assert tail == path[4..];
      assert "foo.before"[4..] == "before" && "foo.after"[4..] == "after";
    }
    LeafFindNode(t[0], path);
    LeafFindNode(t[2], path);
    ListFindNode("foo", FooKids(), path, tail);
    Find3(t[0], t[1], t[2], path);
  }

  /** A top-level property of the test tree is found by its own dotted name alone. */
  lemma TopFind(path: string)
    requires path == "foo.before" || path == "foo.after"
    ensures Find(TestTree(), path) == if path == "foo.before" then [Prop("foo.before", 0)] else [Prop("foo.after", 4)]
  {
    var t := TestTree();
    assert path == "foo" + "." + path[4..];
    CmpPartIff(path, "foo", path[4..]);
    FooKidsFind(path[4..]);
    Find3(t[0], t[1], t[2], path);
    LeafFindNode(t[0], path);
    LeafFindNode(t[2], path);
  }

  /** `set(root, "foo.float", ...)` reaches `foo.float` only. */
  lemma TestTreeFloat()
    ensures Find(TestTree(), "foo.float") == [Prop("float", 2)]
  {
    FooFind("foo.float", "float");
    FooKidsFind("float");
  }

  /** `set(root, "foo.before", ...)` and `"foo.after"` reach the top-level properties, not the list `foo`. */
  lemma TestTreeBeforeAfter()
    ensures Find(TestTree(), "foo.before") == [Prop("foo.before", 0)]
    ensures Find(TestTree(), "foo.after") == [Prop("foo.after", 4)]
  {
    TopFind("foo.before");
    TopFind("foo.after");
  }

  /** A name below a property matches nothing: `Ok(false)`. */
  lemma TestTreeIntBar()
    ensures Find(TestTree(), "foo.int.bar") == []
  {
    FooFind("foo.int.bar", "int.bar");
    FooKidsFind("int.bar");
  }

  /** A name below an action matches nothing: `Ok(false)`. */
  lemma TestTreeActionBar()
    ensures Find(TestTree(), "foo.action.bar") == []
  {
    FooFind("foo.action.bar", "action.bar");
    FooKidsFind("action.bar");
  }

  /** A name below a missing list matches nothing: `Ok(false)`. */
  lemma TestTreeListBar()
    ensures Find(TestTree(), "foo.list.bar") == []
  {
    FooFind("foo.list.bar", "list.bar");
    FooKidsFind("list.bar");
  }

  /** An action named where a property is expected is matched, but no property is: `Ok(false)`. */
  lemma TestTreeAction()
    ensures Find(TestTree(), "foo.action") == [Action("action", 0)]
    ensures LastProp(Find(TestTree(), "foo.action")) == None
  {
    FooFind("foo.action", "action");
    FooKidsFind("action");
  }
}

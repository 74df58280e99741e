# cvar core, modelled in Dafny

This project models the core of `cvar`, a Rust library that exposes a
program's configuration variables as a tree of named nodes that can be
addressed by dotted paths. The tree has three kinds of node:

- a *property* binds a name to a variable of the host program;
- a *list* groups child nodes under a name;
- an *action* is a named callback.

The console façade (`src/console.rs`) resolves a path to the matching nodes
(`find`), walks the whole tree with full paths (`walk`), and sets, gets,
resets and invokes through those. The library (`src/lib.rs`) defines the
node kinds, the four property structs (`Property`, `ClampedProp`,
`ReadOnlyProp` and `OwnedProp`) with their `set`, `set_value`, `reset` and
`state`, the bounds check of clamped properties, and `HexValue`, the
integer wrapper that displays and parses in hex.

Modules:

- `ComparePath` (`compare_path.dfy`) models how one path step is compared with a node name.
- `Nodes` (`nodes.dfy`) models the tree as a value. A visitor is the ordered sequence of children it hands to its callback. It also gives two reference views of the tree: its pre-order, and `Enumerate`, which gives every node with the dotted path that names it.
- `Resolve` (`resolve.dfy`) models `find`/`find_rec` and `walk`/`walk_rec`.
  - `Find` and `Walk` are functions stating which nodes the callback sees and in which order.
  - `FindRec` and `Walker.WalkRec` are the source's loops, proved to make exactly those calls. `Walker.WalkRec` keeps the shared path buffer as a field that it pushes to and truncates.
- `Props` (`property.dfy`) models the property kinds.
  - The effect of `set`, `set_value`, `reset` and `state` is stated once, as functions of the property's fixed description (`PropSpec`) and its variable.
  - The class `Property` updates its variable in place and is proved to follow those functions. It appends its diagnostics to a `Writer`, which stands for the `String` sink.
- `HexValue` (`hex_value.dfy`) models `HexValue` `Display` and `FromStr` for the eight integer types. Wrap-around is written out, and `from_str_radix` is modelled digit by digit.
- `Console` (`console.dfy`) models the `set`, `get`, `reset`, `reset_all` and `invoke` façade.
  - The class `Host` holds the tree, one `PropSpec` per property id and the map of current values.
  - `Host.Invoke` appends each action call to a log.
  - Each operation's loop is a heap-free method over the ordered matches. Its result is tied to a fold over those matches, and the folds are related to order-free definitions (`SetAt`, `ResetAt`).

The tree is not changed by the callbacks, so "find, then call back on each
match" is modelled as "compute the ordered matches, then handle each".
Two nodes that alias the same host variable carry the same property id,
and therefore the same kind, default, parse and display (see "## Left out").

## Model

| member | source | states |
|---|---|---|
| ComparePath.Cmp | src/console.rs:79-92 | `True` exactly when path equals name. `Part(t)` exactly when path is name, a dot, then `t`, with `t` the rest after the dot. `False` in every other case. |
| ComparePath.CmpPartIff | src/console.rs:79-92 | `Cmp(path, name) == Part(t)` if and only if `path == name + "." + t`. |
| ComparePath.CmpTable | src/console.rs:95-114 | The seventeen comparisons of the unit test, including the degenerate empty and dotted names. |
| Nodes.PreOrderNode | src/console.rs:4 | A node's pre-order starts with the node itself. |
| Nodes.PreOrderConcat | src/console.rs:4 | The pre-order of a concatenation of siblings is the concatenation of their pre-orders. |
| Nodes.EnumerateConcat | src/console.rs:118-123 | The reference addressing of a concatenation of siblings is the concatenation of their addressings. |
| Nodes.SelectConcat | src/console.rs:118-123 | Selecting a path distributes over a concatenation of entries. |
| Resolve.Find | src/console.rs:128-145 | The nodes `find_rec` hands its callback, in order. There are never more of them than nodes in the forest. |
| Resolve.FindNode | src/console.rs:131-142 | One child's contribution: a child whose name is the whole path is reported itself (a List is not entered). There are never more matches than nodes in its subtree. |
| Resolve.FindCons | src/console.rs:130-143 | `find` over a first child and the rest is the first child's matches followed by the rest's. |
| Resolve.FindStep | src/console.rs:130-143 | `find` over one more child appends that child's matches. |
| Resolve.FindConcat | src/console.rs:128-145 | The matches in a concatenation of siblings are the matches of each part, in order. |
| Resolve.SelectUnder | src/console.rs:136-140 | Under a List's name, only a partial match can select an entry, and it selects by the tail. |
| Resolve.FindIsSelect | src/console.rs:118-145 | The nodes `find` reports for path `p` are exactly the nodes whose reference path is `p`, in visit order, however the names contain dots. |
| Resolve.FindNodeIsSelect | src/console.rs:128-145 | The same for the subtree of a single node. |
| Resolve.FindRec | src/console.rs:128-145 | The loop calls back exactly with `Find(kids, path)`, and its `found` flag is true if and only if there was a call. |
| Resolve.FindPath | src/console.rs:125-127 | `find` returns true if and only if some node's reference path equals the path, and it calls back with exactly the nodes so addressed. |
| Resolve.SelectNonEmpty | src/console.rs:123 | Some entry is selected if and only if some entry has the path. |
| Resolve.Join | src/console.rs:156-160 | The path buffer rule: under an empty parent the path is the bare name; under a non-empty one the path compares with the parent as a partial match whose tail is the name, so `find` descends through it. |
| Resolve.Walk | src/console.rs:153-170 | The (path, node) pairs `walk_rec` reports, in order: exactly one per node of the forest. |
| Resolve.WalkNode | src/console.rs:154-169 | One child's contribution: first the child itself under the joined path, then its subtree; one entry per node of the subtree. |
| Resolve.WalkOne | src/console.rs:154-169 | Walking a single child is that child's contribution. |
| Resolve.WalkConcat | src/console.rs:153-170 | Walking a concatenation of siblings is walking each part under the same parent path. |
| Resolve.WalkVisitsPreOrder | src/console.rs:147-170 | Walk hands the callback every node exactly once, in depth-first pre-order. |
| Resolve.WalkNodeVisitsPreOrder | src/console.rs:153-170 | The same for the subtree of a single node. |
| Resolve.WalkUnderParent | src/console.rs:156-160 | Walking under a non-empty parent gives the parent, a dot, then the path walked from the empty parent. |
| Resolve.WalkNodeUnderParent | src/console.rs:156-160 | The same for the subtree of a single node. |
| Resolve.UnderNested | src/console.rs:156-160 | Prefixing twice is prefixing once with the dotted join. |
| Resolve.WalkIsEnumerate | src/console.rs:147-170 | Unless a top-level List is named "", walk's paths are the reference paths, and `find` on any path selects exactly the walked entries with that path. |
| Resolve.EmptyListNameWalkVersusFind | src/console.rs:157-160 | Under a top-level List named "", walk prints a child as `x` while `find` reaches it only as `.x`. |
| Resolve.Walker.WalkRec | src/console.rs:153-170 | The path buffer is restored on return, and the callback calls appended are exactly `Walk(kids, old path)`. |
| Resolve.WalkTree | src/console.rs:149-152 | From an empty buffer, walk calls back with `Walk(root, "")`, whose nodes are the pre-order of the tree. |
| Props.CheckBoundsInclusive | src/lib.rs:427-441 | A present `min` alone decides (`min <= val`). Otherwise a present `max` decides (`val <= max`). With no bound, every value passes. |
| Props.CheckBoundsIgnoresMax | src/lib.rs:428-433 | When `min` is present, the result does not depend on `max`. |
| Props.CheckBoundsAboveMax | src/lib.rs:428-433 | So 100 passes the bounds [0, 10]. |
| Props.Admits | src/lib.rs:490-509 | Whether a parsed or downcast value is stored: always for a non-clamped kind; for a clamped one exactly when `check_bounds_inclusive` passes it. |
| Props.AfterSet | src/lib.rs:395-406 | `set` of each kind. It succeeds if and only if the property is not read-only and the text parses. A read-only property writes the fixed message. A parse error writes its text and leaves the variable unchanged. A success writes nothing and stores the value, except that a clamped property keeps its old value when the new one is out of bounds. |
| Props.AfterSetValue | src/lib.rs:384-393 | `set_value` of each kind. It succeeds if and only if the property is not read-only and the runtime type matches. A mismatch writes "mismatched types" and leaves the variable unchanged. A success stores the value, or for a clamped property keeps the old value when the new one is out of bounds. |
| Props.AfterReset | src/lib.rs:408-410 | `reset` copies the default in, unchecked against bounds. A read-only property is left as it is. |
| Props.StateOf | src/lib.rs:416-421 | `state` is `Default` if and only if the variable equals the default, and it is never `Invalid`. |
| Props.ResetIdempotent | src/lib.rs:408-421 | Resetting twice is resetting once, and a settable property then reports `Default`. |
| Props.SetIdempotent | src/lib.rs:395-406 | Setting the same text twice gives the flag and the value of setting it once. |
| Props.SetDisplayedRoundTrip | src/lib.rs:395-406 | For a standard or owned property whose type parses its own display, setting the displayed text of `x` succeeds, stores `x` and writes nothing. |
| Props.OwnedBehavesAsStandard | src/lib.rs:647-684 | `OwnedProp` sets, set-values, resets and reports exactly like `Property`. |
| Props.Writer.WriteStr | src/lib.rs:859 | The `String` sink only appends. |
| Props.Property.GetValue | src/lib.rs:380-382 | `get_value` gives the current variable, and the state is `Default` exactly when it equals `default_value`. |
| Props.Property.DefaultValue | src/lib.rs:412-414 | `default_value` gives the default, which itself reports `Default`. |
| Props.Property.State | src/lib.rs:416-421 | The property's state is `StateOf` its variable, never `Invalid`. |
| Props.Property.Set | src/lib.rs:395-406 | The in-place `set`: the flag, the new variable and the text appended to the writer are those of `AfterSet`. |
| Props.Property.SetValue | src/lib.rs:384-393 | The in-place `set_value`: the flag, the new variable and the appended text are those of `AfterSetValue`. |
| Props.Property.Reset | src/lib.rs:408-410 | The in-place `reset` gives `AfterReset`, after which a settable property reports `Default`. |
| HexValue.Wrap | src/lib.rs:231-237 | The result is in the type's range, differs from the input by a multiple of the modulus, and is unchanged for an in-range input. |
| HexValue.WrappingNeg | src/lib.rs:233-235 | `wrapping_neg` is `-v` reduced into the range. |
| HexValue.BitNot | src/lib.rs:237-239 | `!v` is `-v - 1` reduced into the range. |
| HexValue.DigitValue | src/lib.rs:231 | `char::to_digit`: a digit's value is below the radix; in radix 10 exactly '0' to '9' are digits, in radix 16 exactly '0' to '9', 'a' to 'f' and 'A' to 'F'. |
| HexValue.Accumulate | src/lib.rs:231 | The digit loop of `from_str_radix` yields an in-range value or an error other than `Empty`. |
| HexValue.FromStrRadix | src/lib.rs:231 | Empty input is the `Empty` error and nothing else is. Any value returned is in range. |
| HexValue.StripPrefixes | src/lib.rs:213-229 | The three optional prefixes, "!" then "-" then "0x", are recognised in that order; the radix is 16 exactly when "0x" was stripped, else 10; `not` is set exactly when the text starts with "!". |
| HexValue.StripPrefixesRejoins | src/lib.rs:213-229 | The prefixes found and the digits left rebuild the text: nothing is dropped or reordered. |
| HexValue.NoPrefixes | src/lib.rs:213-229 | Text that starts with a digit from 1 to 9 has no prefix stripped. |
| HexValue.FromStr | src/lib.rs:211-242 | The parse yields only in-range values. |
| HexValue.Display | src/lib.rs:199-208 | "0" exactly for zero. Otherwise "0x" then the lowercase hex of the value's bits. |
| HexValue.LowerHex | src/lib.rs:205 | The hex digits are non-empty, all valid hex digits, and have no leading zero. |
| HexValue.AccumulateIsFold | src/lib.rs:231 | Hex digits of a value within range are accepted and read as their positional value. |
| HexValue.ParseHexDigits | src/lib.rs:226-231 | "0x" and the hex digits of `n > 0` parse at any type to `n` when it is at most the type's maximum, and to `PosOverflow` otherwise. |
| HexValue.ParseZero | src/lib.rs:199-242 | "0" parses back as 0 at every type. |
| HexValue.DisplayRoundTrip | src/lib.rs:199-242 | Every non-negative value, and so every value of an unsigned type, parses back from its display. |
| HexValue.NegativeDisplay | src/lib.rs:205 | A negative value is displayed as the hex of its two's complement bits. |
| HexValue.NegativeDisplayRejected | src/lib.rs:199-242 | For a signed type, a negative value's display is rejected by its own `FromStr` with `PosOverflow`. |
| HexValue.MinusOneI32Display | src/lib.rs:199-208 | `HexValue(-1i32)` shows as "0xffffffff". |
| HexValue.MinusOneI32Rejected | src/lib.rs:199-242 | That text does not parse back as `i32`. |
| HexValue.FromStrBits | src/lib.rs:211-242 | The corrected parse reads unsigned hex digits as the value's bits; decimal digits and hex digits with their own sign after "0x" are read as written. It yields in-range values and agrees with the parse as written for unsigned types. |
| HexValue.AccumulateWider | src/lib.rs:231 | Positive hex digits that a signed type accepts, or rejects other than by overflow, give the same result at the unsigned type of its width. |
| HexValue.FromStrBitsAgrees | src/lib.rs:211-242 | The corrected parse differs from the parse as written only where that one reports `PosOverflow`: every accepted text and every other error is kept. |
| HexValue.SignAfterHexPrefix | src/lib.rs:226-231 | "0x-1" parses as -1 at `i32` under both parses, the sign being read by `from_str_radix`. |
| HexValue.DisplayRoundTripBits | src/lib.rs:199-242 | With the corrected parse, every value of every type parses back from its display. |
| HexValue.NegatePrefix | src/lib.rs:219-235 | A leading "-" applies `wrapping_neg` to whatever the rest parses to, and passes errors through. |
| HexValue.NotPrefix | src/lib.rs:213-239 | A leading "!" complements whatever the rest parses to, and passes errors through. |
| HexValue.NegAndNotInvolutive | src/lib.rs:233-239 | Both `wrapping_neg` and `!` undo themselves within the range. |
| HexValue.MinusOneIsU8Max | src/lib.rs:219-235 | "-1" parses as 255 at `u8`. |
| HexValue.NotZeroIsAllOnes | src/lib.rs:213-239 | "!0" parses as -1 at `i8` and as 0xffffffff at `u32`. |
| HexValue.MinusHexU16 | src/lib.rs:219-235 | "-0x10" parses as 0xfff0 at `u16`. |
| HexValue.HexTenU16 | src/lib.rs:225-231 | "0x10" parses as 16 at `u16`. |
| Console.PropIds | src/console.rs:50-58 | The property ids of a forest are exactly the ids of the Property nodes of its pre-order, and include those under each child. |
| Console.NodeIds | src/console.rs:52-56 | The ids a visited node stands for are exactly the ids of the Property nodes of its pre-order: its own for a Property, its subtree's for a List, none for an Action. |
| Console.MatchedProps | src/console.rs:17-21 | The ids of the matched properties include every matched Prop's id. |
| Console.ResetTargets | src/console.rs:41-47 | The ids reset through the matches include every id under each match. |
| Console.LastProp | src/console.rs:17-21 | There is no last matched property if and only if no match is a Prop. |
| Console.LastPropIsLast | src/console.rs:17-21 | The last matched property is a matched Prop, and no Prop follows it. |
| Console.Calls | src/console.rs:176-185 | There are no more invocations than matches, and none exactly when no match is an Action. |
| Console.FindWithin | src/console.rs:40-48 | Every id that `find` can set, get or reset lies within the tree's properties. |
| Console.FindNodeWithin | src/console.rs:128-145 | The same for the subtree of a single node. |
| Console.MatchedPropsConcat | src/console.rs:17-21 | The matched ids of a concatenation are the union of the matched ids of its parts. |
| Console.ResetTargetsConcat | src/console.rs:41-47 | The reset targets of a concatenation are the union of the targets of its parts. |
| Console.PropIdsConcat | src/console.rs:50-58 | The ids of a concatenation of siblings are the union of their ids. |
| Console.SetAt | src/console.rs:15-23 | Setting `val` on a batch of ids keeps the key set, leaves every id outside the batch unchanged, and leaves each id in the batch at a value that setting `val` again would not change. |
| Console.ResetAt | src/console.rs:40-58 | Resetting a batch of ids keeps the key set, leaves every id outside the batch unchanged, and leaves each settable property in the batch reporting `Default`. |
| Console.SetMatches | src/console.rs:15-23 | The value map after `set` visits the matches in order keeps the key set; `SetMatchesIsSetAt` proves it equal to `SetAt` over the matched ids. |
| Console.SetMatchesIsSetAt | src/console.rs:15-23 | Setting the matches one after another in visit order is setting every matched property once, whatever the order or repetition. |
| Console.SetReply | src/console.rs:19 | A property's reply is `Ok(true)` if and only if it accepts the text. A read-only property replies with its message. |
| Console.SetResult | src/console.rs:15-23 | `set` returns the reply of the last matched property, or `Ok(false)` when none matched. |
| Console.GetResult | src/console.rs:27-35 | `get` returns `None` if and only if no property matched, and otherwise the display of the last matched property's value. |
| Console.SetReplyIsOutcome | src/console.rs:19 | The reply is the property's `set` outcome: `Ok(true)` on success, the written text as the error otherwise. |
| Console.SetAtStep | src/console.rs:17-21 | Setting one more property updates just that id. |
| Console.ResetAtStep | src/console.rs:43 | Resetting one more property updates just that id. |
| Console.ResetAtNone | src/console.rs:50-58 | Resetting no ids changes nothing. |
| Console.ResetAtCompose | src/console.rs:44 | Resetting two sets of ids in turn is resetting their union. |
| Console.SetEach | src/console.rs:17-22 | The callback loop of `set` stores `SetMatches` and returns `SetResult`. |
| Console.GetEach | src/console.rs:28-34 | The callback loop of `get` returns `GetResult`. |
| Console.CallsStep | src/console.rs:178-183 | One more match adds an invocation exactly when it is an Action. |
| Console.CallEach | src/console.rs:177-184 | The callback loop of `invoke` makes the calls `Calls(ms, args)` and is true if and only if some match is an Action. |
| Console.ResetTree | src/console.rs:50-58 | `reset_all` resets exactly the properties under the visitor, recursively. |
| Console.ResetNode | src/console.rs:52-56 | One child of `reset_all`: a Prop is reset, a List is reset recursively, an Action is ignored. |
| Console.ResetEach | src/console.rs:41-47 | The callback loop of `reset` resets exactly the targets under the matches. |
| Console.Host.Set | src/console.rs:15-23 | `set` at a path updates exactly the matched properties (`SetAt` of them) and returns the last match's reply. The tree, the log and the key set are unchanged. |
| Console.Host.Get | src/console.rs:27-35 | `get` at a path returns the display of the last matched property's value, or `None`. |
| Console.Host.Invoke | src/console.rs:176-185 | `invoke` appends to the log one call per matched Action with the given arguments, in visit order, and returns true if and only if an Action matched. The callback itself touches no property (action bodies are only logged, see "## Left out"). |
| Console.Host.ResetAll | src/console.rs:50-58 | `reset_all` resets every property under the given children and no other. |
| Console.Host.Reset | src/console.rs:40-48 | `reset` returns true if and only if something matched, and resets exactly the matched properties and everything under matched Lists. Actions are ignored. |
| Console.ResetEachStep | src/console.rs:41-47 | One more match adds its ids to the reset targets. |
| Console.MatchStep | src/console.rs:17-21 | One more match adds its Prop id, and a Prop becomes the last one. |
| Console.ResetAllStep | src/console.rs:50-58 | One more child adds its ids. |
| Console.FooKids | src/tests.rs:13-19 | The test's `Foo` visitor has four children, none a List, with pairwise distinct names. |
| Console.TestTree | src/tests.rs:26-30 | The test's root visitor has three children: the List `foo` between two properties whose names continue `foo` with a dot. |
| Console.LeafFindNode | src/console.rs:131-141 | A Prop or Action node matches only its exact name. |
| Console.ListFindNode | src/console.rs:136-140 | A List is entered with the rest of the path after its name and a dot. |
| Console.Find3 | src/console.rs:128-145 | `find` over three siblings is the matches of each, in order. |
| Console.FooKidsFind | src/tests.rs:13-19 | The matches of each path within `Foo`. |
| Console.FooFind | src/tests.rs:26-30 | Under the test root, "foo." followed by anything other than "before" or "after" reaches only into `Foo`. |
| Console.TopFind | src/tests.rs:28-30 | "foo.before" and "foo.after" are the top-level properties. |
| Console.TestTreeFloat | src/tests.rs:47 | "foo.float" resolves to the float property. |
| Console.TestTreeBeforeAfter | src/tests.rs:49-50 | "foo.before" and "foo.after" resolve to the dotted top-level properties. |
| Console.TestTreeListBar | src/tests.rs:52 | "foo.list.bar" matches nothing (by `SetResult`, `set` on an empty match returns `Ok(false)`). |
| Console.TestTreeIntBar | src/tests.rs:53 | "foo.int.bar" matches nothing, because a property is not entered. |
| Console.TestTreeActionBar | src/tests.rs:54 | "foo.action.bar" matches nothing. |
| Console.TestTreeAction | src/tests.rs:55 | "foo.action" matches only the action, so no property matched and `set` returns `Ok(false)`. |

## Left out

- Output sinks other than the `String` buffer (`NullWriter`, `IoWriter` to stdout or stderr) are left out because they only perform I/O. The buffer is modelled as characters, not UTF-8 bytes.
- The runtime type identity and unsafe downcasts (`IValue`, `downcast_ref`, `type_name`) become a `TypeId` tag carried next to a value already read at the property's type.
- `Debug` output, `flags`, `values` and the `IVisit` and `IList` `Debug` impls are left out because they are formatting only.
- The generic `FromStr` and `Display` of a property's type are modelled as the `parse` and `show` fields of its `PropSpec`. Floating-point types are not modelled beyond that.
- `write_error` and `write_mismatched_types` are modelled as the text they write: the error's text, and the fixed "mismatched types" message. The type names the feature-gated variant adds are left out.
- The REPL and the example programs are left out because they are interactive I/O.
- The façade in `src/console.rs` calls `prop.set(val)` with a boxed-error result and `prop.get()`, which belong to a different revision than the `set(val, writer)` of `src/lib.rs`. The model joins the two: a property's reply is `Ok(true)` on success, or an error carrying the text its `set` wrote.
- Console.Host: property storage is keyed by property id, and each id has one `PropSpec`. Two nodes over one host variable must therefore share kind, default, parse and display. In the source a visitor may hand out, say, a `Property` and then a `ReadOnlyProp` or `ClampedProp` over the same field; the outcome of `set` and `reset` then depends on visit order, which the model does not capture.
- Console.SetMatchesIsSetAt: "order and repetition do not matter" holds under that restriction (one `PropSpec` per variable), not for aliasing nodes with different kinds or bounds.
- Console.Host.Invoke: an action's body is a host closure that may assign host variables, property variables included (as the example programs do). The model only logs the invocation, so an action's effects on property values, and what it writes, are not modelled.
- The tree is static in the model. A visitor that builds different children on each visit, or a callback that changes the tree during a walk, is not modelled.
- HexValue.FromStrRadix: `from_str_radix` is modelled digit by digit, including the `+` sign. The error kinds are `Empty`, `InvalidDigit`, `PosOverflow` and `NegOverflow`. A radix other than 10 or 16 never occurs.
- Where the library's description and its code disagree, the model follows the code. `ClampedProp` is described as clamping a value into `[min, max]`, but `set` and `set_value` drop an out-of-bounds value, keep the old one and still return true. `check_bounds_inclusive` decides by `min` alone when `min` is present and never looks at `max` then (see `CheckBoundsAboveMax`).
- The node constructors and `as_node`/`as_inode` conversions are not separate operations. They become the `Node` datatype.

## Findings

| source | as written | input that shows it | evidently intended | confidence | as-written member | corrected member |
|---|---|---|---|---|---|---|
| src/lib.rs:199-242 | `Display` for a signed `HexValue` prints a negative value as the hex of its two's complement bits, but `FromStr` reads hex digits as a positive number of the signed type and rejects it with `PosOverflow`. | `HexValue(-1i32)` displays as "0xffffffff", which `"0xffffffff".parse::<HexValue<i32>>()` rejects. | Hex digits denote the value's bits, so every displayed value parses back. | not executed | HexValue.NegativeDisplayRejected, HexValue.MinusOneI32Rejected | HexValue.FromStrBits, HexValue.DisplayRoundTripBits, HexValue.FromStrBitsAgrees |

# Sound board core, modelled in Dafny

This project models the parts of the sound board application that do not
depend on the user-interface toolkit or the audio pipeline, and proves what
they promise:

- **The generic tree node** (`GenericTreeNode`). It is an ordered tree in which
  every node owns a list of children, points back to its parent, carries an open
  string-keyed data map and has a session-unique identifier. Nodes are Dafny
  objects (`Tree.Node`) whose fields the operations update in place. The facts
  that hold across all nodes of a session live in a ghost `Tree.Forest`: the set
  of nodes in play and a rank that grows strictly along parent pointers. Those
  facts are that every child points back to its owner, that no child is listed
  twice, and that no parent chain is a cycle.
- **The callback register** (`CallbackRegister`). Callbacks are grouped by
  callback type. Each group is a dictionary from identifier to callback, kept in
  insertion order. The register supports registering, unregistering, listing and
  calling in order, optionally stopping at the first truthy answer.
- **The widget data store** (`CustomDataWidget`). It is a dictionary of named
  values with a lookup that falls back to a default.
- **The window manager's lookups**:
  - finding an open window by identifier;
  - snapping a size to the sizes the icon theme ships;
  - finding the best theme image file. That search lowers the size step by step
    and then falls back to the "image not found" picture.

Files:

| file | module | contents |
|---|---|---|
| `wrappers.dfy` | `Wrappers` | `Option` (Python's `None`) and `Result` (a value or the exception raised) |
| `values.dfy` | `Values` | the dynamically typed values stored in nodes and widgets, and Python truthiness |
| `ids.dfy` | `Ids` | the identifier generator |
| `positions.dfy` | `Positions` | index conventions of the child list and the list operations on it |
| `tree.dfy` | `Tree` | the tree node |
| `callback.dfy` | `Callbacks` | the callback register |
| `widget.dfy` | `Widget` | the widget data store |
| `window_manager.dfy` | `WindowManager` | the window manager's lookups |

## Model

| member | source | states |
|---|---|---|
| Ids.IdSource.Fresh | com/valsr/psb/callback.py:105-112 | hands out the current identifier and moves past it, so an identifier is never handed out twice |
| Tree.Node.constructor | com/valsr/type/tree.py:13-21 | a new node has a fresh identifier, no parent and no children; every keyword argument is stored as data, except names reserved for the object itself |
| Tree.Node.GetAttr | com/valsr/type/tree.py:28-36 | `__getattr__(name)` gives the value stored under name, or AttributeError exactly when none is |
| Tree.Node.SetAttr | com/valsr/type/tree.py:38-42 | an unreserved name is stored in the data map and `__getattr__` gives it back; assigning `id` raises AttributeError and changes nothing; assigning `_data` a dict makes it the data map; any other reserved name leaves the data map alone |
| Tree.Node.HasData | com/valsr/type/tree.py:44-53 | true exactly when `__getattr__(name)` would not raise |
| Tree.Node.GetData | com/valsr/type/tree.py:55-57 | the map holds exactly the names `__getattr__` answers for, with the values it gives |
| Tree.Node.SetData | com/valsr/type/tree.py:59-74 | a truthy dict becomes the whole map; any falsy value empties it; any other value raises TypeError and changes nothing |
| Tree.Node.ClearData | com/valsr/type/tree.py:76-78 | the map becomes empty; only the data field may change |
| Tree.Node.AddRejection | com/valsr/type/tree.py:109-124 | the decision of the rules for adding: TypeError exactly for no node; otherwise RuntimeError or acceptance, and an accepted node is not this node, has no parent and is not yet listed |
| Tree.Node.ValidateAdd | com/valsr/type/tree.py:109-124 | the walk to the root ends, and the error returned is exactly the one the rules for adding decide: TypeError for no node; RuntimeError for self, for a node already attached or listed, and for the root of this node's tree |
| Tree.Node.AcceptedIsOffChain | com/valsr/type/tree.py:109-124 | a node that passes validation is a parentless node outside this node's parent chain, so adding it cannot close a cycle |
| Tree.Node.ParentedRejected | com/valsr/type/tree.py:116-117 | a node that still names a parent, as a child popped by `remove_at` does, is rejected by every `add_node` with RuntimeError |
| Tree.Node.AncestorRejected | com/valsr/type/tree.py:113-124 | adding any node of this node's parent chain, this node included, is rejected with RuntimeError |
| Tree.Node.Attach | com/valsr/type/tree.py:104-105 | the node lands at the index, becomes a child of this node, and the forest stays acyclic once this node's chain is ranked above it |
| Tree.Node.AddNode | com/valsr/type/tree.py:80-107 | fails exactly when validation fails, with that error and nothing changed; otherwise inserts at the resolved index, sets the parent, returns this node and keeps the forest valid; at an in-range position `node_at` then finds the node |
| Positions.InsertionIndex | com/valsr/type/tree.py:98-104 | a non-negative position is used as is; past the end means append; -1 means after the last child, -k counts back from there; before the front means the front |
| Positions.Insert | com/valsr/type/tree.py:104 | the new element lands at the index; earlier elements stay put and later ones move up by one; the multiset grows by exactly that element |
| Positions.InsertDistinct | com/valsr/type/tree.py:104 | inserting a node not yet listed keeps the children free of repetitions and adds only that node |
| Positions.ResolveIndex | com/valsr/type/tree.py:212-216 | a position addresses an element exactly when it lies in [-len, len); negative positions count from the back |
| Positions.NegativeCountsFromBack | com/valsr/type/tree.py:212-213 | position -k and position len-k address the same child |
| Positions.InsertThenResolve | com/valsr/type/tree.py:98-104 | after an insert at an in-range position, the same position addresses the inserted node |
| Positions.Delete | com/valsr/type/tree.py:254 | popping index i keeps the earlier elements and moves the later ones down by one; the multiset loses exactly that element |
| Positions.DeleteDistinct | com/valsr/type/tree.py:233 | removing from a list without repetitions removes that element entirely and keeps the rest without repetitions |
| Positions.FirstIndex | com/valsr/type/tree.py:130-132 | the first position holding the element, or None when it is absent (where `list.index` raises) |
| Tree.Node.NodeIndex | com/valsr/type/tree.py:130-132 | the first index of the node among the children, which `node_at` maps back to it, or ValueError when it is not a child |
| Tree.Node.NodeAt | com/valsr/type/tree.py:202-218 | the child at the index, negative positions counting from the back; None, not an exception, outside the list |
| Tree.Node.Match | com/valsr/type/tree.py:147-149 | the node is yielded exactly when the callback accepts it |
| Tree.Node.FindNodes | com/valsr/type/tree.py:134-166 | everything found lies strictly below the node, so the node itself is never yielded |
| Tree.Node.Sweep | com/valsr/type/tree.py:147-153 | what the loop over the children from an index on yields lies strictly below the node |
| Tree.FoundReaches | com/valsr/type/tree.py:134-166 | everything found is accepted by the callback and reached from the node through listed children; without `descend` it is an immediate child |
| Tree.ReachedFound | com/valsr/type/tree.py:147-153 | every accepted node reached through listed children is found by the descending search |
| Tree.FindNodesMembers | com/valsr/type/tree.py:134-166 | a node is found exactly when it is in scope and accepted: the children without `descend`, every node reached below with it |
| Tree.ShallowFind | com/valsr/type/tree.py:147-149 | without `descend`, the search yields exactly the accepted children in their order |
| Tree.FindIsSelect | com/valsr/type/tree.py:147-153 | the search with a callback is the unfiltered pre-order walk filtered by that callback, in the walk's order |
| Tree.FindNodesDistinct | com/valsr/type/tree.py:147-153 | the search never yields a node twice |
| Tree.SelectAppend | com/valsr/type/tree.py:147-153 | filtering a concatenation filters each part |
| Tree.SelectFirst | com/valsr/type/tree.py:196-198 | the first element a filter keeps is preceded only by rejected ones |
| Tree.Node.HasNode | com/valsr/type/tree.py:168-184 | true exactly when some node in scope is accepted by the callback |
| Tree.Node.GetNode | com/valsr/type/tree.py:186-200 | None exactly when no node in scope has the identifier; otherwise a node in scope with it, the first such node in the walk's order |
| Tree.Node.RemoveAt | com/valsr/type/tree.py:238-254 | pops and returns the child that `node_at` gives; out of range returns None and changes nothing; the popped child still names this node as its parent |
| Tree.Node.RemoveNode | com/valsr/type/tree.py:220-236 | an immediate child leaves the list at its position and loses its parent; anything else changes nothing; returns this node |
| Tree.Node.Detach | com/valsr/type/tree.py:304-313 | a listed node leaves its parent's list and loses its parent; otherwise nothing changes; returns this node |
| Tree.ScopeIsListed | com/valsr/type/tree.py:266-269 | whatever a search can find is listed by its parent, so detaching it takes it out |
| Tree.Node.RemoveNodeById | com/valsr/type/tree.py:256-271 | returns what `get_node` finds; that node leaves its parent's list at its index and loses its parent, and no other link changes; None changes nothing |
| Tree.Node.ClearNodes | com/valsr/type/tree.py:273-283 | no children remain, every former child is parentless, and the forest stays valid |
| Tree.Node.Clone | com/valsr/type/tree.py:315-333 | a fresh parentless node; every copy carries its original's data and has the copies of the original's children, in order, as children; old nodes are unchanged; fresh identifiers are used |
| Tree.Node.CopyTop | com/valsr/type/tree.py:324-327 | the new top copy is fresh, parentless and childless, with this node's data and a fresh identifier |
| Tree.Node.CopyChild | com/valsr/type/tree.py:329-331 | one loop round: the clone of child i is appended, and the copies so far mirror children 0..i |
| Tree.Node.AdoptCopy | com/valsr/type/tree.py:330-331 | the clone of a child is appended to this node as the last child |
| Tree.Node.AttachCopy | com/valsr/type/tree.py:331 | `add_node` of a parentless copy appends it and makes this node its parent |
| Tree.Forest.Admit | com/valsr/type/tree.py:324 | a node made by the constructor joins the session's nodes |
| Tree.AdmitStandalone | com/valsr/type/tree.py:15-17 | a node with no parent and no children keeps the forest valid |
| Tree.JoinValid | com/valsr/type/tree.py:329-331 | two valid forests with no node in common stay valid side by side |
| Tree.Ancestry | com/valsr/type/tree.py:119-121 | the parent chain starts at the node and follows parents to a parentless root |
| Tree.AncestryRanks | com/valsr/type/tree.py:119-121 | ranks grow strictly along a parent chain, so the walk to the root ends and visits no node twice |
| Tree.ParentlessAncestorIsRoot | com/valsr/type/tree.py:119-124 | the only parentless node of a chain is the root the walk ends at |
| Tree.AncestryClosed | com/valsr/type/tree.py:119-121 | a parent chain holds the parent of each of its members |
| Tree.RootAlone | com/valsr/type/tree.py:119-123 | a parentless node is its own root and its whole chain |
| Tree.OneChildAbove | com/valsr/type/tree.py:147-153 | a node lies below at most one child of a parent, so sibling subtrees share no node |
| Callbacks.CallbackRegister.constructor | com/valsr/psb/callback.py:12-15 | a new register holds no callback type, so every type's bucket is empty, and it is valid |
| Callbacks.CallbackRegister.RegisterCallback | com/valsr/psb/callback.py:17-34 | returns a fresh identifier; the type's bucket is created if missing and gets the callback last; no other bucket or entry changes; buckets stay dictionaries |
| Callbacks.FreshKeyed | com/valsr/psb/callback.py:27-32 | storing under a fresh identifier keeps a bucket free of repeated identifiers |
| Callbacks.CallbackRegister.UnregisterCallback | com/valsr/psb/callback.py:53-58 | true exactly when the bucket exists and holds the identifier, and then that entry is removed; otherwise nothing changes |
| Callbacks.Without | com/valsr/psb/callback.py:55 | the bucket after `pop` holds exactly the entries of the bucket whose identifier differs, and is no longer |
| Callbacks.WithoutRemovesOne | com/valsr/psb/callback.py:55 | `pop` removes exactly the one entry stored under the identifier and keeps the others in order |
| Callbacks.WithoutKeyed | com/valsr/psb/callback.py:55 | after `pop` the bucket still has no repeated identifier and the identifier is gone |
| Callbacks.CallbackRegister.Callbacks | com/valsr/psb/callback.py:60-72 | the type's bucket, or an empty one when the type is unknown |
| Callbacks.IndexOf | com/valsr/psb/callback.py:54 | the position of an identifier in a bucket, present exactly when the identifier is stored |
| Callbacks.CallbackRegister.Call | com/valsr/psb/callback.py:96-103 | returns what the reference outcome gives and invokes exactly the callbacks of the reference order |
| Callbacks.FirstHitIsFirst | com/valsr/psb/callback.py:98-102 | the result is None exactly when no selected callback answers truthily; otherwise it is the identifier of the first one in insertion order that does |
| Callbacks.CallsAllSelected | com/valsr/psb/callback.py:98-103 | without `exit_on_true` every selected callback is invoked, in insertion order, and the result is None |
| Callbacks.StopsAtFirstHit | com/valsr/psb/callback.py:98-102 | with `exit_on_true` the last callback invoked is the first truthy one; without a truthy answer every selected callback is invoked |
| Callbacks.AtMostOneSelected | com/valsr/psb/callback.py:99 | with a truthy identifier at most one callback of a bucket is selected: the one stored under it |
| Callbacks.InvokedPrefix | com/valsr/psb/callback.py:98-102 | the callbacks `call` invokes are a prefix of those it selects, in insertion order, with or without `exit_on_true` |
| Callbacks.AtMostOneInvoked | com/valsr/psb/callback.py:98-102 | with a truthy identifier `call` invokes at most one callback of a bucket, the one stored under it, with or without `exit_on_true` |
| Callbacks.NoneSelected | com/valsr/psb/callback.py:99 | an identifier that is not stored selects nothing |
| Callbacks.RoundStops | com/valsr/psb/callback.py:100-102 | a truthy answer under `exit_on_true` ends the walk, with that callback invoked last |
| Callbacks.RoundGoesOn | com/valsr/psb/callback.py:98-102 | any other round invokes the entry if it is selected and goes on with the next one |
| Widget.CustomDataWidget.constructor | com/valsr/psb/ui/widget/__init__.py:10-16 | a dict's entries are stored under their names; another truthy value is stored under "data"; a falsy one leaves the store empty |
| Widget.CustomDataWidget.StoreData | com/valsr/psb/ui/widget/__init__.py:18-19 | the value is stored under the name, replacing any earlier one, and reads back; other names keep their status |
| Widget.CustomDataWidget.GetData | com/valsr/psb/ui/widget/__init__.py:21-25 | the stored value, or the default when nothing is stored under the name |
| Widget.CustomDataWidget.HasData | com/valsr/psb/ui/widget/__init__.py:27-28 | a name holds data exactly when `get_data` does not depend on the default it is given |
| WindowManager.Window | com/valsr/psb/ui/window/manager.py:160-174 | None exactly when no open window has the identifier; otherwise the window of the first pair with it |
| WindowManager.WindowIgnoresLater | com/valsr/psb/ui/window/manager.py:170-172 | opening more windows does not change what an identifier already open finds |
| WindowManager.ClosestIndex | com/valsr/psb/ui/window/manager.py:205-210 | the first listed size at most the request, or the last position when none is |
| WindowManager.ClosestSmallestSize | com/valsr/psb/ui/window/manager.py:195-210 | always a listed size; the largest listed size at most the request; 16 when the request is below 16 |
| WindowManager.SizesDescend | com/valsr/psb/ui/window/manager.py:205 | the listed sizes run strictly from the largest down to 16 |
| WindowManager.ClosestOfListed | com/valsr/psb/ui/window/manager.py:205-208 | a listed size snaps to itself |
| WindowManager.ClosestBelowListed | com/valsr/psb/ui/window/manager.py:246-247 | one below a listed size snaps to the next listed size |
| WindowManager.ClosestMonotone | com/valsr/psb/ui/window/manager.py:205-210 | a larger request never snaps to a smaller size |
| WindowManager.LadderIsSizesBelow | com/valsr/psb/ui/window/manager.py:231-247 | the sizes probed for one name start at the snapped size, run strictly downwards to 16, and are exactly the listed sizes at most the snapped size |
| WindowManager.NatToString | com/valsr/psb/ui/window/manager.py:233 | `%d` gives a non-empty string of decimal digits with no leading zero |
| WindowManager.NatToStringRoundTrip | com/valsr/psb/ui/window/manager.py:233 | reading the digits back gives the number |
| WindowManager.ImagePath | com/valsr/psb/ui/window/manager.py:233 | the probed path lies under `ui/fontawesome/` and ends with the image name and `.png` |
| WindowManager.Paths | com/valsr/psb/ui/window/manager.py:233 | the probed path for each size of a ladder, in order |
| WindowManager.FirstExisting | com/valsr/psb/ui/window/manager.py:235-237 | None exactly when no path exists; otherwise an existing path with none before it existing |
| WindowManager.ThemeImageFile | com/valsr/psb/ui/window/manager.py:212-249 | the loop ends, and its answer is the first existing path among the reference candidates |
| WindowManager.ProbeStep | com/valsr/psb/ui/window/manager.py:231-247 | one probe: a hit ends the search; a miss at 16 ends it for "image" and restarts it for "image" otherwise; any other miss goes on from one size lower |
| WindowManager.CandidatesAtSmallest | com/valsr/psb/ui/window/manager.py:238-244 | at 16 only that probe is left for a name, followed by the fallback image's probes from the original size |
| WindowManager.CandidatesBelow | com/valsr/psb/ui/window/manager.py:245-247 | at a listed size above 16, that probe comes before the probes from one size lower |
| WindowManager.LadderStep | com/valsr/psb/ui/window/manager.py:245-247 | from a listed size above 16, the next size probed is the next listed size |
| WindowManager.FirstExistingCons | com/valsr/psb/ui/window/manager.py:235-237 | the first probe decides when it exists; after a miss the search goes on with the rest |
| WindowManager.FoundFileExists | com/valsr/psb/ui/window/manager.py:231-249 | an answer names an existing file at a listed size, either for the requested name or for "image" |
| WindowManager.FallsBackWhenMissing | com/valsr/psb/ui/window/manager.py:238-244 | when no image of the name exists at any listed size, the answer is the one for "image" |
| WindowManager.SkipMissing | com/valsr/psb/ui/window/manager.py:235-247 | probing paths that do not exist first changes nothing |

## Left out

- Identifiers: `uuid.uuid1()` (tree.py:18, callback.py:112) is modelled by a counter (`Ids.IdSource`). The counter is passed to the operations that need a fresh identifier. Node identifiers are numbers, not strings.
- Tree.Node.Clone: requires every identifier of the session to lie below the counter, which is what makes the copies' identifiers fresh. The returned ghost forest of copies is kept apart from the session's forest. `Tree.Issued` records only the range of identifiers the copies received, not that they are pairwise different.
- Tree.Node.Clone: the `deep` flag and `copy.copy`/`copy.deepcopy` are not modelled. Values are immutable here, so a copied map is equal to the original and no aliasing is visible. The flag is not passed to the children's clones.
- Data values: node and widget data are immutable `Values.Value`s. Callbacks handed to `find_nodes` see a node's identifier and data, not the node object.
- Tree.Node.constructor: keyword names starting with `_` or equal to `id` go to the object's own attributes. They are dropped from the data map, and their effect on the object is not modelled: an `id=` keyword raises AttributeError, `_data=` replaces the data map, and `_parent=` or `_children=` rewire the tree.
- Tree.Node.ValidateAdd: `_validate_node_add` raises TypeError for any argument that is not a GenericTreeNode. The model's argument is a `Node?`, so only None stands for such a value; other Python values cannot be passed.
- Tree.Node.SetAttr: assigning `_parent` or `_children` rewires the tree and assigning `_id` changes the identifier; the model records no effect for them, since a value cannot hold a node. Any other `_x` becomes a plain attribute that is not modelled. Assigning `_data` a value that is not a dict is modelled as leaving the map alone; the source stores that value and later data operations fail.
- Tree.Node.GetAttr: names defined on the class or the instance (the methods such as `children`, `clone` and `has_data`, the `id` property, the `_data`, `_parent`, `_children` and `_id` fields) are found before `__getattr__` runs. Reading such a name never consults the data map, so a value stored under it does not read back. The model gives what `__getattr__` gives.
- Tree.Node.GetAttr: the branch of `__getattr__` that re-creates a missing `_data` attribute is not modelled. `_data` always exists here.
- `add_at` (tree.py:126-128) only calls `add_node` with the given position. `Tree.Node.AddNode` models both.
- `children()`, `parent()` and the `id` property (tree.py:23-26, 285-302) are the fields `children`, `parent` and `id` of `Tree.Node`.
- `iterate_nodes` is a generator. The model gives the list it yields (`Tree.Node.FindNodes`). Laziness is not modelled, nor the early stop of `has_node` (which the answer does not depend on).
- Tree.Node.ClearNodes: the list of children becomes empty. The source assigns an empty dict (`{}`, tree.py:282), on which a later `add_node` would fail in `insert`. The model treats it as the empty list the rest of the class expects.
- The concrete counts of the repository's unit tests (a 5×5×5 tree) are not restated. The tests were written against a later revision of the class.
- `_dump_node` (tree.py:335-349) only formats log output.
- Callbacks: the untyped branches of `unregister_callback` and `call` (callback.py:47-51, 89-95) are not modelled. They unpack dictionary keys as pairs, which does not work on a dict. `callback_type` is a string; None is not representable.
- Callbacks.CallbackRegister.Call: requires a non-empty callback type, because an empty type is falsy and takes the untyped branch. The keyword arguments are not modelled. A callback is a function of the positional arguments whose answer is a value. Callbacks that change the register while being called are not modelled.
- Callbacks: callback identifiers are positive numbers from the counter, so none is falsy. A `cb_id` of None or 0 selects every callback.
- Widget: the stored names are strings. A Python dict passed to the constructor may have other keys, which are not modelled. The order of the constructor's loop over the dict is not modelled, since the resulting store does not depend on it.
- Callbacks.CallbackRegister.constructor: `super().__init__(**kwargs)` passes keyword arguments to the classes mixed in after it, which are not modelled; the register starts empty.
- WindowManager.Window: `_windows` is a parameter, the list of (identifier, window) pairs in the order the windows were opened. Windows are opaque values.
- WindowManager.ThemeImageFile: `os.path.exists` is a parameter, a predicate on paths. The `Logger.warning` on a failed search is not modelled. The defaults of `name`, `size` and `theme` are not modelled. `size` is an integer.
- The rest of the window manager (creating, opening, closing, destroying windows, `is_visible`), the kivy widgets, the GStreamer players, the project file I/O and the kivy-bound tree are outside this model.

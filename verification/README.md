# Gutenberg core logic in Dafny

This project models four pieces of the Gutenberg editor and proves properties about them:

- **`data_controls.dfy` (module `DataControls`).** The scoped lock queue behind the `ATOMIC_OPERATION` control of `@wordpress/data-controls`.
  - Callers submit `{ exclusive, scope, handler }`. The control puts the request at the front of the module-level `enqueued` array and runs the queue.
  - `runQueue` scans the queue from the oldest request to the newest. It walks a lazily built tree of scopes (`inProgress`) from the root towards each request's node, creating missing nodes on the way. It rejects the request if a node above the target holds a conflicting operation. It then searches the target's subtree with an explicit stack.
  - The requests that pass are spliced out of the queue. After the scan they are pushed onto their node's `operations`.
  - When a handler settles, its operation is spliced out of its node and the queue runs again.
  - The state is the class `AtomicControl`:
    - `enqueued` is a `seq`;
    - `inProgress` is a map from a node's path to its operations and its child names, in insertion order;
    - a counter gives every queued object its identity.
  - Every loop of the source is a method proved against a specification function. Those functions are:
    - `WalkDepth`/`Extend` for the walk;
    - `SubtreeFree` for the stack search;
    - `Waiting`/`Grants`/`PassNodes` for the scan;
    - `GrantAll` for the grants.
- **`template_info.dfy` (module `TemplateInfo`).** `getTemplateInfo` of the site editor: the title/description fallback chain. The built-in `TEMPLATES_DEFAULT_DETAILS` table is a parameter.
- **`font_family.dfy` (module `FontFamily`).** The font-family block support. It covers:
  - decoding a stored `var:preset|font-family|<slug>` reference; the JavaScript regular expression `/var:preset\|font-family\|(.+)/` is modelled character by character;
  - the value the change handler stores;
  - the option list of the select control;
  - the "disabled" hook.
- **`navigation.dfy` (module `Navigation`).** The `Navigation` component:
  - the guard in `setActiveMenu`;
  - the queue-and-visited-list walk `traverseMenu` over a menu graph that may contain cycles;
  - `isMenuEmpty`, which counts non-empty menus during that walk.

`wrappers.dfy` holds the shared `Option`/`Result` types. A JavaScript `undefined` is `None`. A thrown `TypeError` is `Err`.

Where the code and the intended design of the lock manager differ, the model follows the code:

- **Grants are applied only after the scan.** Every request of one pass is judged against the tree as it stood when the pass began. So two mutually exclusive requests for the same scope can both be started in one pass, and whole-subtree isolation is not an invariant of the code. `SameScopeExclusivesBothStarted` exhibits this. `SingleGrantPreservesIsolation` proves that a single grant of a runnable request does keep isolation.
- **The promise never settles.** The `resolve` stored with a request is never called, and the handler's result is not propagated.
- **Release of an operation that is not in its node.** `indexOf` gives -1, and `splice(-1, 1)` removes the node's LAST operation. The code signals no error.
- **The empty scope.** The `do … while` body runs once and creates the child `nestedScopes[undefined]`, whose key is the string "undefined" (`Target`).

## Model

| member | source | states |
|---|---|---|
| DataControls.AtomicOperation | packages/data-controls/src/index.js:80-87 | the descriptor has type `ATOMIC_OPERATION` and carries `exclusive`, `scope` and `handler` unchanged |
| DataControls.CountExclusive | packages/data-controls/src/index.js:207 | the count of exclusive operations is positive iff some operation is exclusive, and never exceeds the list's length |
| DataControls.HasConflictingLock | packages/data-controls/src/index.js:202-212 | an exclusive request conflicts iff the node holds any operation; a shared request conflicts iff the node holds an exclusive one |
| DataControls.SharedCompatible | packages/data-controls/src/index.js:202-212 | shared requests never conflict with a node holding only shared operations, while an exclusive request conflicts with any non-empty node |
| DataControls.Target | packages/data-controls/src/index.js:152-164 | the walk always reaches a node below the root: the scope's own path, or the child keyed "undefined" for the empty scope |
| DataControls.AddChild | packages/data-controls/src/index.js:158-163 | creating a missing child adds exactly that node, with no operations and no children, and keeps the map a well-formed tree |
| DataControls.EnsureChild | packages/data-controls/src/index.js:157-164 | one step of the walk: the tree stays well formed, gains at most the child node, and no node's operations change |
| DataControls.WalkDepth | packages/data-controls/src/index.js:150-165 | the walk stops at the first node above the target that conflicts; every node it passed is free |
| DataControls.WalkReachesAll | packages/data-controls/src/index.js:153-156 | the walk reaches the target iff no node from the root down to, but excluding, the target conflicts |
| DataControls.Extend | packages/data-controls/src/index.js:150-165 | the walk creates exactly the missing prefixes of the path it passed, keeps the tree well formed and changes no operation |
| DataControls.Walk | packages/data-controls/src/index.js:153-165 | the walk keeps the tree well formed, only adds nodes, changes no operation, and when it succeeds the target node exists |
| DataControls.WalkSpec | packages/data-controls/src/index.js:150-165 | the step-by-step walk leaves the tree extended down to its first conflict and reports whether it got to the target |
| DataControls.WalkFrom | packages/data-controls/src/index.js:150-165 | the same from any depth of the walk (the induction behind `WalkSpec`) |
| DataControls.ExtendKeepsLocks | packages/data-controls/src/index.js:157-164 | nodes the walk creates are empty: every path holds the same operations as before |
| DataControls.SameLocksAgree | packages/data-controls/src/index.js:150-175 | the walk depth, the ancestor check and the subtree check depend only on the operations held, so nodes created earlier in a pass change no verdict |
| DataControls.OnPath | packages/data-controls/src/index.js:183-186 | the operations pushed onto a node are started requests that target that node |
| DataControls.ScanStep | packages/data-controls/src/index.js:146-180 | one scan step at index `i` either splices out `q[i]` (runnable) or leaves the queue as is, and adds `q[i]` to the started list exactly when it is runnable |
| DataControls.PassPartition | packages/data-controls/src/index.js:146-180 | a pass splits the queue: a request stays iff it is not runnable, is started iff it is, and none is lost or duplicated (multisets) |
| DataControls.GrantsOldestFirst | packages/data-controls/src/index.js:121-186 | requests are started oldest first: the started list is the runnable requests in reverse queue order |
| DataControls.QueueCount | packages/data-controls/src/index.js:178-179 | the requests left plus those started number exactly the queue's length |
| DataControls.NoLocksStartsAll | packages/data-controls/src/index.js:144-186 | when no node holds an operation, a pass starts every queued request, oldest first, and empties the queue |
| DataControls.BlockedRequestSkipped | packages/data-controls/src/index.js:146-180 | a blocked oldest request stays queued while a younger request for an unrelated scope is started in the same pass |
| DataControls.Grant | packages/data-controls/src/index.js:186 | granting appends the operation to its target node's operations and changes no other node and no child list |
| DataControls.GrantAll | packages/data-controls/src/index.js:183-186 | the grants of a pass add no node and change no child list |
| DataControls.GrantAllOperations | packages/data-controls/src/index.js:183-186 | after the grants every node holds its old operations followed by the started requests that target it, in start order |
| DataControls.SingleGrantPreservesIsolation | packages/data-controls/src/index.js:150-186 | granting one request that is runnable on the current tree keeps whole-subtree isolation |
| DataControls.SameScopeExclusivesBothStarted | packages/data-controls/src/index.js:144-186 | two exclusive requests for the same scope on an idle tree are both started by one pass, and the resulting tree is not isolated |
| DataControls.ReleaseUnblocksDescendant | packages/data-controls/src/index.js:188-198 | an exclusive operation at ["x"] blocks an exclusive request at ["x","y"] but not one at ["z"]; once it is released, the blocked request is runnable |
| DataControls.IndexOf | packages/data-controls/src/index.js:193 | `indexOf` is the first position of the operation, or -1 exactly when it is absent |
| DataControls.SpliceOut | packages/data-controls/src/index.js:192-195 | the first occurrence of a present operation is removed and nothing else (multiset minus one), and an absent one makes `splice(-1, 1)` drop the last element |
| DataControls.WithoutOperation | packages/data-controls/src/index.js:190-195 | release changes only the released operation's node, removing exactly that operation, and keeps every node and child list |
| DataControls.Children | packages/data-controls/src/index.js:174 | `Object.values( leaf.nestedScopes )` gives one child path per listed child name, in insertion order |
| DataControls.ChildrenOfTree | packages/data-controls/src/index.js:174 | the children pushed onto the stack are nodes of the tree and none lies below another |
| DataControls.PopCovered | packages/data-controls/src/index.js:169-175 | popping a node and pushing its children removes exactly that node from the nodes still to be examined |
| DataControls.AtomicControl.constructor | packages/data-controls/src/index.js:138-142 | the queue is empty and the tree is a root without operations or children |
| DataControls.AtomicControl.WalkToLeaf | packages/data-controls/src/index.js:150-165 | the walk loop leaves the tree extended exactly down to the first conflict and reports whether the target was reached |
| DataControls.AtomicControl.CreateChild | packages/data-controls/src/index.js:157-164 | the missing child is created, and an existing one is left untouched |
| DataControls.AtomicControl.NestedScopesFree | packages/data-controls/src/index.js:167-175 | the explicit-stack search answers true iff no node of the target's subtree, the target included, conflicts |
| DataControls.AtomicControl.CheckRequest | packages/data-controls/src/index.js:147-176 | a request passes iff it is runnable on the tree at the start of the pass; the checks only add the walk's nodes and change no operation |
| DataControls.AtomicControl.Scan | packages/data-controls/src/index.js:145-180 | after the scan the queue holds exactly the non-runnable requests in their order, the collected list is the runnable ones oldest first, and the tree gained only the walks' nodes |
| DataControls.AtomicControl.PushAll | packages/data-controls/src/index.js:183-186 | each collected request is pushed onto its node, in order |
| DataControls.AtomicControl.RunQueue | packages/data-controls/src/index.js:144-200 | one pass: the queue, the tree's nodes and every node's operations end as `Waiting`, `PassNodes` and `OnPath` say, and the tree stays well formed |
| DataControls.AtomicControl.Submit | packages/data-controls/src/index.js:117-131 | a request with a fresh identity is put at the front of the queue and a pass runs over the extended queue |
| DataControls.AtomicControl.Release | packages/data-controls/src/index.js:190-197 | the settled operation is spliced out of its node, then a pass runs over the queue and the reduced tree |
| TemplateInfo.Or | packages/edit-site/src/utils/get-template-info/index.js:31-32 | `a \|\| b` yields `a` when it is a non-empty string, otherwise `b` |
| TemplateInfo.SlugKey | packages/edit-site/src/utils/get-template-info/index.js:27-28 | an object lookup by a missing slug uses the key "undefined" |
| TemplateInfo.DefaultsFor | packages/edit-site/src/utils/get-template-info/index.js:26-29 | the defaults are the caller's entry for the slug if any, else the built-in entry if any, else empty |
| TemplateInfo.GetTemplateInfo | packages/edit-site/src/utils/get-template-info/index.js:14-34 | the result is the empty object exactly for a falsy template |
| TemplateInfo.TemplatePartInfo | packages/edit-site/src/utils/get-template-info/index.js:22-24 | a template part has its slug as title and the empty description, whatever the tables hold |
| TemplateInfo.TitleFallback | packages/edit-site/src/utils/get-template-info/index.js:26-31 | the title is the rendered title if truthy, else the default title if truthy, else the slug |
| TemplateInfo.TitleNeverEmpty | packages/edit-site/src/utils/get-template-info/index.js:31 | a template with a non-empty slug always has a non-empty title |
| TemplateInfo.DescriptionFallback | packages/edit-site/src/utils/get-template-info/index.js:32 | the description is the raw excerpt if truthy, else the default description, which may be missing |
| TemplateInfo.CallerDetailsTakePrecedence | packages/edit-site/src/utils/get-template-info/index.js:26-29 | details the caller supplies for the slug are used, and the built-in table then does not affect the result |
| TemplateInfo.BuiltinDetailsUsed | packages/edit-site/src/utils/get-template-info/index.js:26-29 | without caller details for the slug, the built-in entry is used |
| TemplateInfo.NoDefaults | packages/edit-site/src/utils/get-template-info/index.js:26-33 | when neither table knows the slug, the title is the rendered title or the slug and the description is the excerpt or missing |
| FontFamily.RunEnd | packages/block-editor/src/hooks/font-family.js:51 | the greedy `(.+)` stops at the first line terminator, or at the end of the string |
| FontFamily.MatchAfterPrefix | packages/block-editor/src/hooks/font-family.js:51 | wherever `var:preset\|font-family\|` occurs, the pattern matches there iff a character other than a line terminator follows it |
| FontFamily.ExecFrom | packages/block-editor/src/hooks/font-family.js:51 | the group `exec` captures from a given position on is never empty and holds no line terminator |
| FontFamily.Exec | packages/block-editor/src/hooks/font-family.js:51-52 | the group `exec` captures is never empty (so always truthy) and holds no line terminator |
| FontFamily.ExecFromNone | packages/block-editor/src/hooks/font-family.js:51 | `exec` fails iff the pattern matches at no position |
| FontFamily.ExecFromLeftmost | packages/block-editor/src/hooks/font-family.js:51 | a successful `exec` captures at the leftmost match the longest run without a line terminator |
| FontFamily.ExecPreset | packages/block-editor/src/hooks/font-family.js:51 | the prefix followed by a non-empty slug without line terminators captures exactly that slug |
| FontFamily.FindFirst | packages/block-editor/src/hooks/font-family.js:53-55 | `find` gives the first element satisfying the test, or nothing when none does |
| FontFamily.FindBySlug | packages/block-editor/src/hooks/font-family.js:53-55 | `find` by slug gives the first family with that slug, or nothing when none has it |
| FontFamily.FindByValue | packages/block-editor/src/hooks/font-family.js:85-88 | `find` by value gives the first family with that value, or nothing when none has it |
| FontFamily.Decode | packages/block-editor/src/hooks/font-family.js:50-58 | a value that does not match is returned unchanged (undefined included); a match decodes to the value of the first family whose slug is the captured group, and fails, naming that group, iff no family has it |
| FontFamily.UnknownSlugFails | packages/block-editor/src/hooks/font-family.js:53-55 | a reference to a slug no family has makes `find(...).value` throw |
| FontFamily.MissingAttributeUnchanged | packages/block-editor/src/hooks/font-family.js:50-58 | a missing attribute decodes to missing |
| FontFamily.Encode | packages/block-editor/src/hooks/font-family.js:84-99 | a preset's value is stored as the reference to the first family with that value; any other non-empty value is stored verbatim; nothing is stored iff the value is empty and no family has it |
| FontFamily.EncodeDecode | packages/block-editor/src/hooks/font-family.js:51-55 | storing a preset's value and decoding it gives that value back, when slugs are unique and capturable |
| FontFamily.DecodeEncode | packages/block-editor/src/hooks/font-family.js:50-99 | a stored preset reference decodes to its preset's value, and storing that value gives the same reference back, when slugs and values are unique |
| FontFamily.CustomValueRoundTrip | packages/block-editor/src/hooks/font-family.js:50-99 | a non-empty custom value that is no preset's value and does not match the pattern is stored verbatim and decoded verbatim |
| FontFamily.Options | packages/block-editor/src/hooks/font-family.js:29-38 | the options are the default entry `{ key: '', name: 'Default' }` followed by each family's own option, in order, keyed and styled by its value and named by its name or else its value |
| FontFamily.FamilyOption | packages/block-editor/src/hooks/font-family.js:31-37 | a family's option is named by its name when truthy, else by its value |
| FontFamily.SelectedOption | packages/block-editor/src/hooks/font-family.js:43 | the selected option is the first one whose key equals the value, or none |
| FontFamily.ShownOptionOfPreset | packages/block-editor/src/hooks/font-family.js:29-99 | the control selects the option of the preset with the shown value, and picking that option stores the preset's reference |
| FontFamily.DefaultOptionClears | packages/block-editor/src/hooks/font-family.js:29-99 | the empty value selects the default entry, and picking it clears the attribute when no preset has the empty value |
| FontFamily.IsFontFamilyDisabled | packages/block-editor/src/hooks/font-family.js:118-130 | editing is disabled iff the presets are missing or empty, or the block lacks the support |
| FontFamily.FontFamilyEdit | packages/block-editor/src/hooks/font-family.js:60-110 | the component renders nothing exactly when font-family editing is disabled |
| Navigation.SetActiveMenu | packages/components/src/navigation/index.js:32-40 | an unknown id changes nothing and calls nothing; a known one becomes the shown menu, sets the slide origin to the one passed or else 'left', and is passed to `onActivateMenu` |
| Navigation.ActiveMenuStaysKnown | packages/components/src/navigation/index.js:32-40 | the shown menu stays a known menu, and activating the same menu twice is like activating it once |
| Navigation.Kids | packages/components/src/navigation/index.js:71 | a menu without an entry in `parentMenuToMenu` has no children; otherwise its children are its entry |
| Navigation.ReachableStep | packages/components/src/navigation/index.js:69-72 | a child id of a reachable menu is reachable |
| Navigation.SkipKeepsInvariant | packages/components/src/navigation/index.js:62-66 | dropping an unknown or already visited id keeps the walk's invariant |
| Navigation.VisitKeepsInvariant | packages/components/src/navigation/index.js:68-74 | visiting a new menu and queueing its children keeps the walk's invariant |
| Navigation.TraverseMenu | packages/components/src/navigation/index.js:56-76 | the walk terminates even with cycles; each menu is passed at most once; unknown ids are skipped; the start menu comes first; every menu passed is reachable; every child of a passed menu is handled |
| Navigation.ClosedCoversReachable | packages/components/src/navigation/index.js:58-75 | every known menu reachable from the start has been passed to the callback |
| Navigation.CountNonEmpty | packages/components/src/navigation/index.js:79-85 | the count is zero iff every menu passed is empty |
| Navigation.IsMenuEmpty | packages/components/src/navigation/index.js:78-88 | the result is true if every reachable menu is empty, and, when every menu is stored under its own id, only then |

## Left out

- `API_FETCH` and `triggerFetch`: network I/O.
- The `select`, `syncSelect` and `dispatch` control aliases: they wrap `@wordpress/data`, which is not part of this model.
- `createRegistryControl` and `registry.dispatch`: the registry is a foreign library. The handler is an opaque value and is never run.
- The promise of `ATOMIC_OPERATION` and the microtask timing of handlers. Handler completion is the explicit `Release` step. Because `resolve` is never called, no result reaches the caller, and the model has none.
- DataControls.AtomicControl.Release: any path may be passed as the node. The source always passes the node the operation was pushed onto.
- Keys inherited from `Object.prototype`: a scope segment such as "constructor" finds an inherited function instead of a child, and the next `hasConflictingLock` throws. Segments are treated as plain own keys.
- The iteration order of `Object.values`: it lists integer-like keys in ascending order before the other keys. The model pushes children in insertion order for every key. No verdict of the search depends on that order.
- The `exclusive` flag of a request is a boolean. The source tests the truthiness of any value it is given.
- Scope segments that are not strings: they are coerced to property names. The model takes segments as strings.
- The entries of `TEMPLATES_DEFAULT_DETAILS` (its file is not part of this model): the table is a parameter.
- Template fields that are not strings: only strings or missing values are modelled.
- Table entries that are present but falsy (`null`, `0`): JavaScript falls through to the next table. The model takes every entry to be a details object and uses it.
- `cleanEmptyObject` and `setAttributes` in the font-family change handler: their definitions are not part of this model. `Encode` gives the `fontFamily` value handed to them.
- The translation call `__( 'Default' )`: the untranslated label is used.
- `hasBlockSupport` and the editor-settings selector: their results are parameters of `IsFontFamilyDisabled`.
- The default parameter `value = ''` of `FontFamilyControl`, and the rendering of `CustomSelectControl`. `SelectedOption` models the `find` over the options.
- Navigation.TraverseMenu: does not state the breadth-first order of the calls. It states which menus are passed, their distinctness, that the start menu is first, and that nothing reachable is missed.
- Navigation.IsMenuEmpty: states the converse only for trees whose menus are stored under their own ids. With a mismatched id, the walk may skip a reachable non-empty menu because an earlier menu carried the same id.
- The React state, effects, `isMounted` and `Animate` parts of `Navigation`: rendering only. `SetActiveMenu` returns the new state and the id passed to `onActivateMenu`.

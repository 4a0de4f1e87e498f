# Diagram view controller and config export, modelled in Dafny

This project models two parts of the SemPukh/ui web front end for Kubernetes clusters.

**The diagram view controller `VisualView`** (`src/src/components/Diagram/visual-view.js`):
- Its state is the camera, the minimap ("control") box, the layout tree received from the data source and its id lookup table, the keyed registries of rendered node elements, the pan animation with its timer, and the view's record of the selected node.
- It reacts to the shared store's `selected_dn` and `markers_dict` notifications, and to clicks and expand/collapse requests on nodes.

**The config panel** (`src/src/components/Properties/Config/index.js`) does three things:
- it derives the download file name (`kind-namespace-name.yaml`, lower-cased, or `config.yaml`);
- it builds the matching `kubectl apply` command;
- it prepares the copy of a configuration used for editing, with the server-managed fields removed.

Modules:
- **Common** holds `Option`, `Result` and `Outcome`, plus real `Min` and `Max`.
- **Camera** holds the clamp rule for the pan offset, the pan interpolation, and the auto-pan target.
- **Minimap** holds the geometry `_setupControl` computes.
- **TextMetrics** holds `_measureText`.
- **LayoutTree** holds:
  - the source document and the layout nodes packed from it;
  - the lookup table, in registration order;
  - the flattening of the visible nodes;
  - expand/collapse.
- **Reconcile** holds the bookkeeping of a keyed d3 data join: exit, then enter.
- **SharedStore** holds:
  - the store the views share;
  - JavaScript truthiness of its values;
  - the expansion-flag dictionary accessors.
- **Diagram** holds the `VisualView` class. The class keeps the controller's fields and updates them in place.
- **ConfigExport** holds:
  - the lodash `get` and `unset` operations on configuration documents;
  - the edit copy;
  - the file name and command;
  - the `ConfigPanel` class holding the component's state.

**How the model stands in for what it leaves out.**
- Rendered DOM elements are opaque handles drawn from a counter, `nextHandle`.
- Timers are ids drawn from a second counter. `pendingTimers` is the set the event loop would still fire.
- The clock (`new Date()`) is a `now` parameter.
- The layout passes of the external `VisualNode` class are a `layout` function parameter. These are `autoexpand`, `measureAndArrange` and `calculateAbsolutePos`. The parameter is required to change no node's identity and to give the root a positive size.
- `_updateNode` is observed through the log `refreshed` of the ids whose element it updates.

**What the model proves.**
- **Clamp bounds.** These are facts about single operations, not an invariant of the view:
  - an immediate pan lands inside the clamp bounds (`PanTo`);
  - with the elapsed fraction capped at 1, every tick between two admissible ends is admissible (`TickPositionInBounds`, `StartedPanAnimates`);
  - following the selection from an admissible offset keeps the camera and every such tick admissible (`FollowedPanInBounds`).
  Resizing, new data and full updates do not re-clamp the offset, and the tick as written can overshoot (see Findings).
- **Pan bookkeeping.** At most one pan timer is ever pending, and it is the one recorded in `_panAnimationTimer` (`PanValid`). Every method that touches the pan keeps this.
- **Minimap box.** The box fits the content at the largest uniform scale, is never below 100 on a side, and sits 20 from the corner. When the camera is admissible and the content is at least as large as the viewport on both axes, the overlay lies inside it (`OverlayInsidePreview`); with a smaller content the overlay can be wider than the box.
- **Lookup table.** After `acceptSourceData` the table holds exactly the document's ids, each under its own id. The layout passes keep its keys.
- **Registries.** After `render`, the two registries are keyed by exactly the flattened node ids. Retained ids keep their element, and every new element is fresh and distinct.
- **Refreshes.** `updateAll` refreshes exactly the rendered visible nodes, in pre-order. A selection change refreshes the previous node and then the new one.
- **Edit copy.** Stripping removes exactly the six server-managed fields, keeps every other path, and is idempotent.
- **File name.** It is lower-case and ends in `.yaml` after a non-empty stem. It is `kind-namespace-name.yaml` for a full configuration and `config.yaml` with no name parts. The command carries `-n <namespace>` exactly when there is a namespace.

**Behaviour of the code worth noting.**
- **Resizing.** `setupDimentions` does not clamp the pan offset against the new size (`visual-view.js:168-177`). It only re-applies the transform and resizes the minimap.
- **Starting a pan mid-flight.** This reuses the pending timer; `_animatePanTransform` returns when one is pending (`visual-view.js:312-314`). Only one timer is ever pending, and the model proves it.
- **Interpolation.** It is d3's linear `interpolate`, with no easing. The last tick is not snapped to the target (see Findings).
- **String paths.** The panel reads the namespace and the name with the string paths `'metadata.namespace'` and `'metadata.name'` (`index.js:29`, `33`). lodash takes such a string as one key when the object has that key, and splits it at the dots otherwise (`GetByString`, `DottedNameKey`).

## Model

| member | source | states |
|---|---|---|
| Camera.FixViewPos | src/src/components/Diagram/visual-view.js:368-381 | the clamped offset satisfies `0 <= x <= max(0, content - viewport)` on each axis; an admissible offset is unchanged; without content only the lower bound 0 applies; content narrower than the viewport pins the axis to 0 |
| Camera.FixViewPosIdempotent | src/src/components/Diagram/visual-view.js:368-381 | clamping twice gives what clamping once gives |
| Camera.FixViewPosNearest | src/src/components/Diagram/visual-view.js:372-378 | along an axis the result is the requested value when admissible, else the bound it crossed |
| Camera.Lerp | src/src/components/Diagram/visual-view.js:324-325 | d3's number interpolation gives the start at fraction 0, the end at fraction 1, and a constant for equal ends |
| Camera.InterpolateAt | src/src/components/Diagram/visual-view.js:298-301 | the interpolator yields the start at fraction 0 and the target at fraction 1 |
| Camera.TickPosition | src/src/components/Diagram/visual-view.js:324-325 | a tick at or past the full duration stores exactly the target (corrected behaviour) |
| Camera.LerpWithin | src/src/components/Diagram/visual-view.js:324-325 | interpolating by a fraction in [0, 1] between two values of an interval stays in it |
| Camera.TickPositionInBounds | src/src/components/Diagram/visual-view.js:324-326 | with an admissible start and target, every (capped) tick is admissible |
| Camera.LerpPassesEnd | src/src/components/Diagram/visual-view.js:324-325 | past fraction 1 the interpolation runs on beyond the end value, in the direction of travel |
| Camera.AsWrittenTickPassesTarget | src/src/components/Diagram/visual-view.js:324-325 | as written, every tick with a raw fraction above 1 stores a position strictly beyond the target on each axis along which the pan moves |
| Camera.AsWrittenTickOvershoots | src/src/components/Diagram/visual-view.js:324-325 | as written, a tick at 105% of the duration overshoots a target on the bound and leaves the clamp bounds |
| Camera.AutoPanTarget | src/src/components/Diagram/visual-view.js:278-280 | the followed node ends at least 10 from the left and top edges, and is centred when the viewport leaves that much room |
| Minimap.RawBoxSide | src/src/components/Diagram/visual-view.js:184-186 | a side of the box before fitting is never below 100 |
| Minimap.ComputeControlBox | src/src/components/Diagram/visual-view.js:179-198 | both sides of the final box are at least 100 |
| Minimap.ControlBoxScale | src/src/components/Diagram/visual-view.js:188-190 | the scale is positive, fits both sides of the content into the raw box and fills one of them exactly |
| Minimap.ControlBoxPlacement | src/src/components/Diagram/visual-view.js:192-198 | the box holds the scaled content, equals it unless that is below 100, sits 20 from the bottom-right corner; the overlay is the viewport rectangle scaled |
| Minimap.FitScale | src/src/components/Diagram/visual-view.js:188-190 | the smaller side ratio fits both sides and fills one |
| Minimap.OverlayInsidePreview | src/src/components/Diagram/visual-view.js:220-226 | for an admissible camera and content at least the viewport's size, the overlay lies inside the scaled content and the box |
| Minimap.OverlayInsideScaledContent | src/src/components/Diagram/visual-view.js:220-226 | the same containment for any positive scale |
| Minimap.ScaleExample | src/src/components/Diagram/visual-view.js:184-195 | a 1000 by 500 content in a 400 by 300 viewport gets scale 0.1 and a 100 by 100 box |
| TextMetrics.MeasureText | src/src/components/Diagram/visual-view.js:67-95 | throws exactly when the font table is missing; otherwise the width is the sum of the code units' widths and the height the font's, a nil text measuring 0 wide |
| TextMetrics.TextWidth | src/src/components/Diagram/visual-view.js:80-91 | the empty text measures 0, and a text measured with no negative width is never negative |
| TextMetrics.TextWidthAppend | src/src/components/Diagram/visual-view.js:80-91 | the measured width is additive over concatenation |
| TextMetrics.CharWidthTable | src/src/components/Diagram/visual-view.js:83-89 | a code inside the table is measured by its entry, one outside by the default width |
| TextMetrics.TextWidthMonotone | src/src/components/Diagram/visual-view.js:80-91 | with no negative width a text measures at least 0 and at least as wide as any prefix |
| LayoutTree.IdsOf | src/src/components/Diagram/visual-view.js:437-439 | the join key of each item is its id, in item order |
| LayoutTree.Pack | src/src/components/Diagram/visual-view.js:390-405 | the packed node keeps the source id and kind, treats absent children as none and packs one child per source child |
| LayoutTree.PackAll | src/src/components/Diagram/visual-view.js:397-399 | one packed node per source child |
| LayoutTree.PostOrder | src/src/components/Diagram/visual-view.js:396-400 | a node is registered after all of its descendants |
| LayoutTree.Register | src/src/components/Diagram/visual-view.js:400 | registering keeps every existing key, adds every node's id, and the last node registered sits under its id |
| LayoutTree.RegisterContents | src/src/components/Diagram/visual-view.js:400 | registering adds exactly the nodes' ids, binds each to one of the nodes and leaves the other entries alone |
| LayoutTree.RegisterAppend | src/src/components/Diagram/visual-view.js:396-400 | registering two lists in turn is registering their concatenation |
| LayoutTree.RegisterKeysMatch | src/src/components/Diagram/visual-view.js:400 | every registered node sits under its own id |
| LayoutTree.Index | src/src/components/Diagram/visual-view.js:383-405 | the lookup table built from a tree holds the root under its own id |
| LayoutTree.IndexComplete | src/src/components/Diagram/visual-view.js:383-405 | the lookup table holds every node of the tree, each under its own id |
| LayoutTree.PackIds | src/src/components/Diagram/visual-view.js:390-405 | packing keeps exactly the ids of the source document |
| LayoutTree.PackAllIds | src/src/components/Diagram/visual-view.js:397-399 | the same for a list of children |
| LayoutTree.PostOrderChildrenFirst | src/src/components/Diagram/visual-view.js:396-400 | in registration order every child precedes its parent |
| LayoutTree.PostOrderAllChildrenFirst | src/src/components/Diagram/visual-view.js:397-399 | the same for a list of children |
| LayoutTree.Extract | src/src/components/Diagram/visual-view.js:414 | the visible list starts with the node; a collapsed node contributes only itself |
| LayoutTree.ExtractWithinTree | src/src/components/Diagram/visual-view.js:414 | every visible node is a node of the tree |
| LayoutTree.Flatten | src/src/components/Diagram/visual-view.js:414-417 | the flattened list is the visible list, without the root when the root is hidden |
| LayoutTree.ToggleExpanded | src/src/components/Diagram/visual-view.js:981-984 | exactly the node with the given id flips its flag; ids, kinds, geometry and child counts are kept |
| LayoutTree.ToggleAll | src/src/components/Diagram/visual-view.js:981-984 | toggling keeps the number of children |
| LayoutTree.ToggleTwice | src/src/components/Diagram/visual-view.js:981-984 | expanding and collapsing a node restores the tree |
| LayoutTree.ToggleSameShape | src/src/components/Diagram/visual-view.js:981-984 | toggling changes no node's identity |
| LayoutTree.SameShapeIds | src/src/components/Diagram/visual-view.js:411-413 | trees of the same shape register the same ids in the same order |
| LayoutTree.SameShapeIndexKeys | src/src/components/Diagram/visual-view.js:411-413 | the layout passes, which update nodes in place, leave the lookup table's keys unchanged |
| LayoutTree.IdSetOfIds | src/src/components/Diagram/visual-view.js:437-439 | node lists with the same ids in order have the same id set |
| LayoutTree.PackedIndex | src/src/components/Diagram/visual-view.js:383-418 | after packing and layout, the table is keyed by exactly the document's ids, each entry under its own id |
| LayoutTree.SampleExtract | src/src/components/Diagram/visual-view.js:414 | a sample tree with collapsed namespaces flattens to the root and the namespaces |
| LayoutTree.SampleToggle | src/src/components/Diagram/visual-view.js:981-984 | toggling one namespace of the sample tree expands it and touches nothing else |
| LayoutTree.ExpandRevealsChild | src/src/components/Diagram/visual-view.js:981-984 | expanding that namespace inserts its pod right after it in the visible list |
| LayoutTree.FlattenGainsId | src/src/components/Diagram/visual-view.js:414-417 | when expanding a node inserts one new id among the extracted ids, the flattened ids gain exactly that id, with the root shown or hidden |
| LayoutTree.ExpandAddsChildId | src/src/components/Diagram/visual-view.js:981-984 | toggling the sample namespace adds exactly its pod to the flattened ids of the toggled tree, with the root shown or hidden |
| LayoutTree.SameExtractIdSet | src/src/components/Diagram/visual-view.js:414-417 | trees that extract the same ids in order flatten to the same id set |
| Diagram.KeptExpansionIdSet | src/src/components/Diagram/visual-view.js:411-417 | layout passes that keep the expansion keep the flattened id set of the tree they are run on |
| Diagram.ExpandSampleGainsPod | src/src/components/Diagram/visual-view.js:981-984 | with layout passes that keep the expansion, double-clicking the sample namespace makes the laid-out flattened ids, the registries' keys after `NodePerformExpandCollapse`, gain exactly its pod |
| Reconcile.KeyedJoin | src/src/components/Diagram/visual-view.js:433-463 | the registry ends keyed by exactly the item ids; retained ids keep their element; new elements come from fresh handles; injectivity and freshness are kept; an unchanged key set changes nothing |
| Reconcile.Exit | src/src/components/Diagram/visual-view.js:441-446 | exit drops exactly the entries of the ids that left and keeps the others' elements |
| Reconcile.Enter | src/src/components/Diagram/visual-view.js:448-463 | enter binds a fresh element to each arriving id and keeps the existing entries; no arrival allocates nothing |
| Reconcile.BindFresh | src/src/components/Diagram/visual-view.js:461-463 | binding an id to the first unused handle keeps the registry injective and below the counter |
| SharedStore.SharedState.Set | src/src/components/Diagram/visual-view.js:285 | a store write changes that key only |
| SharedStore.AsSelection | src/src/components/Diagram/visual-view.js:927-951 | a string value is a selected id; `null` and `undefined` select nothing |
| SharedStore.SelectionValue | src/src/components/Diagram/visual-view.js:966-977 | the value written for a selection reads back as that selection; clearing writes `null` |
| SharedStore.ReadExpanded | src/src/components/Diagram/visual-view.js:51-58 | throws exactly for a missing dictionary; otherwise true exactly when the id's flag is truthy |
| SharedStore.WriteExpanded | src/src/components/Diagram/visual-view.js:60-65 | writing succeeds exactly on a dictionary and adds the id |
| SharedStore.WriteThenRead | src/src/components/Diagram/visual-view.js:51-65 | a written flag reads back, other ids keep theirs |
| SharedStore.ReadThenWrite | src/src/components/Diagram/visual-view.js:51-65 | writing back the flag just read changes no id's flag |
| Diagram.RenderedIdsMembers | src/src/components/Diagram/visual-view.js:707-712 | exactly the nodes with a rendered element are refreshed |
| Diagram.RenderedIds | src/src/components/Diagram/visual-view.js:707-712 | no more refreshes than nodes, and only nodes with a rendered element are refreshed |
| Diagram.RenderedIdsAppend | src/src/components/Diagram/visual-view.js:920-925 | refreshing two lists in turn refreshes their concatenation |
| Diagram.SelectionRefreshes | src/src/components/Diagram/visual-view.js:927-949 | at most two refreshes, only of the old or new selection and only of rendered nodes in the table; none when the selection is unchanged; the old node first and the new node last |
| Diagram.NodeHeaderBgWidth | src/src/components/Diagram/visual-view.js:1004-1009 | the highlight spans the node when selected and is header-high otherwise |
| Diagram.HeaderBoxFor | src/src/components/Diagram/visual-view.js:1049-1075 | a missing header is 0 by 0; a flavour's box is read when a flavour is given and its absence throws; else the default box |
| Diagram.NodeHeaderWidth | src/src/components/Diagram/visual-view.js:1049-1061 | the width of that box, throwing where the lookup throws |
| Diagram.NodeHeaderHeight | src/src/components/Diagram/visual-view.js:1063-1075 | the height of that box, throwing where the lookup throws |
| Diagram.NodeHeaderText | src/src/components/Diagram/visual-view.js:1077-1086 | a missing header shows no text, otherwise its text |
| Diagram.KeySetOfIds | src/src/components/Diagram/visual-view.js:437-439 | the join keys of a list are its id set |
| Diagram.ClickedSelection | src/src/components/Diagram/visual-view.js:966-977 | clicking the selected node clears the selection; clicking another node selects it |
| Diagram.ClickTwice | src/src/components/Diagram/visual-view.js:966-977 | two clicks on a node select it exactly when it was selected before |
| Diagram.StartedPan | src/src/components/Diagram/visual-view.js:297-305 | an animated pan does not move the camera yet; a pending timer is reused unchanged, otherwise exactly one new timer is added |
| Diagram.FollowedPan | src/src/components/Diagram/visual-view.js:267-281 | following keeps the camera where it is for now; with no followed node nothing changes, otherwise the interpolation runs from the current offset to the node's clamped target |
| Diagram.StartedPanAnimates | src/src/components/Diagram/visual-view.js:289-334 | starting a pan keeps the bookkeeping consistent with one timer pending (the old one when there was one), runs from the current offset to the target, and keeps every tick admissible when both ends are |
| Diagram.FollowedPanInBounds | src/src/components/Diagram/visual-view.js:267-309 | following the selection from an admissible offset keeps the camera and every tick inside the content; with no followed node nothing changes |
| Diagram.VisualView.ControlUpdated | src/src/components/Diagram/visual-view.js:179-197 | `_setupControl` keeps the minimap's elements, does nothing without a root and otherwise stores a box of at least 100 by 100 |
| Diagram.VisualView.constructor | src/src/components/Diagram/visual-view.js:11-33 | the initial state: zero size, origin offset, root shown, no tree, no selection, empty registries, no animation |
| Diagram.VisualView.GetExpanded | src/src/components/Diagram/visual-view.js:51-58 | reads the flag from the stored expansion dictionary, throwing when it is missing |
| Diagram.VisualView.SetExpanded | src/src/components/Diagram/visual-view.js:60-65 | stores the flag so that it reads back, other ids' flags and other keys unchanged; throws, changing nothing, when there is no dictionary |
| Diagram.VisualView.SkipShowRoot | src/src/components/Diagram/visual-view.js:97-99 | hides the root |
| Diagram.VisualView.SetupControl | src/src/components/Diagram/visual-view.js:179-230 | stores the freshly computed box when there is a root, and throws exactly when there is a root and no minimap group |
| Diagram.VisualView.ApplyPanTransform | src/src/components/Diagram/visual-view.js:347-366 | once the root group exists it is translated by the negated offset and the minimap refreshed; nothing otherwise |
| Diagram.VisualView.SetupDimentions | src/src/components/Diagram/visual-view.js:168-177 | stores the size, resizes the minimap and re-applies the (unclamped) offset; throws as `_setupControl` does |
| Diagram.VisualView.StopPanAnimation | src/src/components/Diagram/visual-view.js:336-345 | clears the animation and cancels its timer, leaving none pending |
| Diagram.VisualView.AnimatePanTransform | src/src/components/Diagram/visual-view.js:310-316 | schedules a timer only when none is pending |
| Diagram.VisualView.SnapTo | src/src/components/Diagram/visual-view.js:293-296 | the immediate pan cancels the animation, moves to the target and applies it |
| Diagram.VisualView.StartPanAnimation | src/src/components/Diagram/visual-view.js:297-305 | the pan state becomes `StartedPan` of the old one |
| Diagram.VisualView.PanTo | src/src/components/Diagram/visual-view.js:289-309 | clamps the target; an immediate pan lands on it with no timer pending; an animated pan starts towards it without moving the camera yet |
| Diagram.VisualView.UserPanTo | src/src/components/Diagram/visual-view.js:283-287 | switches auto-pan off in the store and pans as `_panTo` |
| Diagram.VisualView.MoveTo | src/src/components/Diagram/visual-view.js:325-326 | a tick stores the new offset and applies it: with a root group, the group is translated by the negated offset and the minimap box recomputed; without one, neither changes |
| Diagram.VisualView.PanAnimationTick | src/src/components/Diagram/visual-view.js:316-333 | a tick stores the interpolated offset for the elapsed fraction and applies it to the root group and the minimap; before the end it schedules the next tick, at the end it lands on the target and stops |
| Diagram.VisualView.AdvancePan | src/src/components/Diagram/visual-view.js:325-332 | after a tick's timer fired: moves to the position and applies it, then schedules the next tick or stops the animation |
| Diagram.VisualView.TickKeepsBounds | src/src/components/Diagram/visual-view.js:324-326 | a tick between admissible ends is admissible |
| Diagram.VisualView.RenderControl | src/src/components/Diagram/visual-view.js:127-166 | creates the minimap group and its three children from fresh handles |
| Diagram.VisualView.Setup | src/src/components/Diagram/visual-view.js:101-125 | empties both registries, creates the svg, sizes the view, then creates the root group and minimap and applies the offset; sizing throws, ending the setup, when a tree arrived before the minimap, leaving the root group and the offset as they were; either way the minimap box is the one recomputed for the new size |
| Diagram.VisualView.MountSvg | src/src/components/Diagram/visual-view.js:101-118 | empties both registries, creates the svg element and sizes the view: the size and the recomputed minimap box are stored, and the offset is re-applied only when sizing succeeds with a root group |
| Diagram.VisualView.CreateRootGroup | src/src/components/Diagram/visual-view.js:120-124 | creates the root group and the minimap and applies the offset; the minimap box is recomputed from the same size and offset |
| Diagram.VisualView.RenderItems | src/src/components/Diagram/visual-view.js:433-463 | the main registry is rejoined against the items, keeping retained elements and allocating fresh ones |
| Diagram.VisualView.RenderItemsSmall | src/src/components/Diagram/visual-view.js:834-859 | the minimap registry is rejoined the same way |
| Diagram.VisualView.Render | src/src/components/Diagram/visual-view.js:420-431 | before setup nothing; after it both registries are keyed by exactly the flattened ids, retained ids keeping their elements |
| Diagram.VisualView.PackNode | src/src/components/Diagram/visual-view.js:390-405 | packs the subtree and registers its nodes children first |
| Diagram.VisualView.MassageSourceData | src/src/components/Diagram/visual-view.js:407-418 | lays the tree out, keeps the table's keys and flattens the visible nodes, dropping a hidden root; nothing without a tree |
| Diagram.VisualView.AcceptSourceData | src/src/components/Diagram/visual-view.js:383-388 | the table holds exactly the document's ids, the flattened list is the laid-out tree's, and sizing the minimap throws exactly when it has not been rendered; the rendered elements and the pan state are untouched |
| Diagram.VisualView.IngestTree | src/src/components/Diagram/visual-view.js:383-387 | packs, registers and lays out the document |
| Diagram.VisualView.LoadTree | src/src/components/Diagram/visual-view.js:384-385 | the table is rebuilt from empty for the packed document |
| Diagram.VisualView.UpdateNode | src/src/components/Diagram/visual-view.js:707-712 | a node is refreshed exactly when it has a rendered element |
| Diagram.VisualView.UpdateNodeR | src/src/components/Diagram/visual-view.js:920-925 | refreshes the rendered visible nodes of the subtree in pre-order |
| Diagram.VisualView.UpdateChildren | src/src/components/Diagram/visual-view.js:922-924 | the same for a list of visible children |
| Diagram.VisualView.AutoPanNode | src/src/components/Diagram/visual-view.js:267-276 | the camera follows the selected node exactly when auto-pan is on and the selection names a node of the table |
| Diagram.VisualView.ActivatePanning | src/src/components/Diagram/visual-view.js:267-281 | with a followed node an animated pan starts towards its clamped target; otherwise nothing changes |
| Diagram.VisualView.RefreshSelection | src/src/components/Diagram/visual-view.js:927-948 | records the new selection and refreshes the nodes `SelectionRefreshes` names, in order |
| Diagram.VisualView.UpdateSelection | src/src/components/Diagram/visual-view.js:927-951 | the same, then follows the selection; the camera and the applied transform do not move yet |
| Diagram.VisualView.IndexedKeysMatch | src/src/components/Diagram/visual-view.js:400 | every entry of the lookup table sits under its own id |
| Diagram.VisualView.HandleVisualNodeClick | src/src/components/Diagram/visual-view.js:966-977 | writes exactly `false` to auto-pan and the toggled selection (`null` to clear it) to the store, leaving other keys alone |
| Diagram.VisualView.UpdateAll | src/src/components/Diagram/visual-view.js:953-964 | lays out again; the minimap sizing throws exactly when there is a tree and no minimap; otherwise both registries match the flattened ids, the visible rendered nodes are refreshed in pre-order and the selection is followed; the offset stays, is applied to the root group, and the minimap box is recomputed; when the sizing throws, the registries, handle counter, refresh log and pan state are as before |
| Diagram.VisualView.Redraw | src/src/components/Diagram/visual-view.js:958-963 | re-renders, refreshes the visible nodes and follows the selection |
| Diagram.VisualView.Relayout | src/src/components/Diagram/visual-view.js:955-957 | lays out, applies the offset and sizes the minimap, throwing as `_setupControl` does |
| Diagram.VisualView.RenderAndRefresh | src/src/components/Diagram/visual-view.js:958-961 | re-renders both registries and refreshes the visible nodes from the root |
| Diagram.VisualView.FollowSelection | src/src/components/Diagram/visual-view.js:962-963 | sizes the minimap and follows the selection |
| Diagram.VisualView.ToggleNode | src/src/components/Diagram/visual-view.js:981-983 | flips the flag of the node with the id and rebuilds the lookup table, which keeps its keys |
| Diagram.VisualView.NodePerformExpandCollapse | src/src/components/Diagram/visual-view.js:981-984 | flips the node's flag and runs a full update: the table keeps its keys, both registries end keyed by the new flattened ids (and, when the layout passes keep the expansion, by the flattened ids of the toggled tree), the visible rendered nodes are refreshed and the selection is followed; when the sizing throws, the registries, refresh log and pan state are as before |
| Diagram.VisualView.OnMarkersChanged | src/src/components/Diagram/visual-view.js:41-48 | keeps the markers (an empty dictionary for a falsy value) and runs a full update, with the same registries, refreshes, flattened list and pan as `updateAll`, on success and on the sizing throw |
| ConfigExport.PrefixDiverges | src/src/components/Properties/Config/index.js:61-67 | a path extending one path diverges from every path that one diverges from |
| ConfigExport.GetPath | src/src/components/Properties/Config/index.js:29-33 | the empty path finds the document; a longer path finds something only below an existing key of an object |
| ConfigExport.GetByString | src/src/components/Properties/Config/index.js:29-33 | a string path that is itself a key of the object finds that key's value first; only an object can yield a value for a path |
| ConfigExport.DottedSampleParts | src/src/components/Properties/Config/index.js:29-33 | a top-level key `metadata.name` is the name, with no nested `metadata` needed |
| ConfigExport.DottedNameKey | src/src/components/Properties/Config/index.js:29-43 | kind `Pod` and a top-level `metadata.name` of `x` give the file `pod-x.yaml` |
| ConfigExport.Unset | src/src/components/Properties/Config/index.js:62-67 | unsetting keeps whether the document is an object; a one-key path removes exactly that key, a longer path keeps the top-level keys |
| ConfigExport.UnsetGet | src/src/components/Properties/Config/index.js:61-67 | after `_.unset` nothing is found at or below the path, and diverging paths find what they found before |
| ConfigExport.UnsetAbsent | src/src/components/Properties/Config/index.js:61-67 | unsetting a path where nothing is found changes nothing |
| ConfigExport.UnsetAllGet | src/src/components/Properties/Config/index.js:61-67 | after unsetting paths none of which lies inside another, nothing is left below any of them and diverging paths are untouched |
| ConfigExport.UnsetAllAbsent | src/src/components/Properties/Config/index.js:61-67 | unsetting absent paths changes nothing |
| ConfigExport.UnsetAllClears | src/src/components/Properties/Config/index.js:62-67 | after unsetting paths none of which lies inside another, nothing is found at any of them |
| ConfigExport.StrippedPathsWellFormed | src/src/components/Properties/Config/index.js:62-67 | the six stripped paths are non-empty and none lies inside another |
| ConfigExport.StripForEdit | src/src/components/Properties/Config/index.js:61-67 | the edit copy has nothing at any of the six stripped fields |
| ConfigExport.StripGet | src/src/components/Properties/Config/index.js:61-67 | the edit copy has nothing at or below a stripped field and keeps every other path |
| ConfigExport.StripKeepsOtherKeys | src/src/components/Properties/Config/index.js:61-67 | every other metadata key and every top-level key except `metadata` and `status` keeps its value |
| ConfigExport.StripClears | src/src/components/Properties/Config/index.js:62-67 | nothing is left at a stripped field |
| ConfigExport.StripIdempotent | src/src/components/Properties/Config/index.js:61-67 | stripping twice is stripping once |
| ConfigExport.Lower | src/src/components/Properties/Config/index.js:40 | lower-casing keeps the length, leaves no upper-case letter and changes nothing else |
| ConfigExport.LowerIdempotent | src/src/components/Properties/Config/index.js:40 | lower-casing twice is lower-casing once |
| ConfigExport.LowerOfLower | src/src/components/Properties/Config/index.js:40 | a lower-case string is unchanged |
| ConfigExport.LowerParts | src/src/components/Properties/Config/index.js:40 | throws exactly when a part is not a string; otherwise each part lower-cased |
| ConfigExport.LowerPartsCons | src/src/components/Properties/Config/index.js:40 | the parts are lower-cased one by one |
| ConfigExport.Join | src/src/components/Properties/Config/index.js:42 | joining nothing gives the empty string; otherwise the result starts with the first part, followed by the separator when there are more parts |
| ConfigExport.JoinLower | src/src/components/Properties/Config/index.js:42 | joining lower-case parts with `-` is lower-case |
| ConfigExport.NamePartsTruthy | src/src/components/Properties/Config/index.js:29-34 | only truthy kind, namespace and name are kept |
| ConfigExport.NameParts | src/src/components/Properties/Config/index.js:29-34 | at most three parts, none exactly when kind, namespace and name are all falsy, and the kind first when it is truthy |
| ConfigExport.FileNameOfFails | src/src/components/Properties/Config/index.js:36-42 | the name fails exactly when a kept part is not a string |
| ConfigExport.FileNameFails | src/src/components/Properties/Config/index.js:29-43 | the same for a configuration |
| ConfigExport.FileName | src/src/components/Properties/Config/index.js:29-43 | a derived name ends in `.yaml` |
| ConfigExport.FileNameOfShape | src/src/components/Properties/Config/index.js:36-42 | a name built from non-empty strings is lower-case and ends in `.yaml` after a non-empty stem |
| ConfigExport.FileNameShape | src/src/components/Properties/Config/index.js:29-43 | every derived file name is lower-case and ends in `.yaml` after a non-empty stem |
| ConfigExport.JoinNonEmpty | src/src/components/Properties/Config/index.js:42 | joining parts starting with a non-empty one is non-empty |
| ConfigExport.FileNameFallback | src/src/components/Properties/Config/index.js:36-38 | with no truthy part the name is `config.yaml` |
| ConfigExport.FallbackName | src/src/components/Properties/Config/index.js:36-42 | the fallback part alone yields `config.yaml` |
| ConfigExport.FallbackLowered | src/src/components/Properties/Config/index.js:37-40 | the fallback part lower-cases to itself |
| ConfigExport.ConfigIsLower | src/src/components/Properties/Config/index.js:37-40 | `config` is already lower-case |
| ConfigExport.FileNameFull | src/src/components/Properties/Config/index.js:29-42 | kind, namespace and name give `kind-namespace-name.yaml`, lower-cased |
| ConfigExport.FileNameWithoutNamespace | src/src/components/Properties/Config/index.js:29-42 | without a namespace the name is `kind-name.yaml`, lower-cased |
| ConfigExport.KubectlCommand | src/src/components/Properties/Config/index.js:45-49 | the command exists exactly when the file name does and starts with `kubectl apply -f` and that name |
| ConfigExport.CommandNamespaceFlag | src/src/components/Properties/Config/index.js:45-48 | the command exists exactly when the name does, names the file, and ends in `-n` and the namespace as written exactly when the namespace is truthy |
| ConfigExport.StripKeepsStringKey | src/src/components/Properties/Config/index.js:29-33 | stripping keeps what a string path under `metadata` finds, read either way |
| ConfigExport.StripKeepsNames | src/src/components/Properties/Config/index.js:29-67 | the edit copy gets the same file name and command as the configuration |
| ConfigExport.ConfigPanel.constructor | src/src/components/Properties/Config/index.js:19-26 | view mode, both texts the configuration's dump, `config.yaml` and an empty command |
| ConfigExport.ConfigPanel.DeriveNames | src/src/components/Properties/Config/index.js:28-50 | the mount effect stores the derived name and command, or throws and stores nothing |
| ConfigExport.ConfigPanel.HandleEditedMode | src/src/components/Properties/Config/index.js:57-71 | flips the mode; entering edit mode sets the edited text to the stripped copy's dump |
| ConfigExport.ConfigPanel.HandleChangeConfig | src/src/components/Properties/Config/index.js:91-93 | stores the typed text |
| ConfigExport.ConfigPanel.ExportedText | src/src/components/Properties/Config/index.js:84 | downloads and copies the edited text in edit mode and the dump otherwise |

## Left out

- DOM and d3 drawing are not modelled: attributes, transitions, classes, colours, tooltips, expander, severity, flag and marker decorations (`visual-view.js:464-705`, `713-832`, `860-918`), and the logo URL. Only which elements exist and which nodes are refreshed is kept.
- The mouse-drag, wheel and minimap click/drag handlers (`visual-view.js:140-165`, `232-265`) are not modelled beyond the `_userPanTo` they call: they turn browser events into coordinates.
- `VisualNode` (`visual-node.js`) is not part of this model. Its layout passes are a parameter, and its `extract`/`visibleChildren` are the pre-order of the expanded subtrees.
- The shared store's subscription mechanism is not modelled. The two handlers are methods (`UpdateSelection`, `OnMarkersChanged`) that the store would call.
- `Diagram.VisualView.Setup`: the `layout-resize-universeComponent` listener and the measurement of the parent element are left out; the caller passes the size.
- `Diagram.VisualView.UpdateAll`: the `isFullUpdate` flag only chooses whether decorations are redrawn, and is left out.
- `Diagram.VisualView.PanAnimationTick`: stores the position for the elapsed fraction capped at 1 (see Findings). Its early return for a cleared duration is unreachable while one timer is pending, and so is not modelled.
- `Diagram.VisualView.RefreshSelection`, `Diagram.VisualView.AutoPanNode`, `Diagram.VisualView.ActivatePanning`: a `null`, `undefined` or boolean `selected_dn` is looked up in the source under the key `"null"`, `"undefined"` or `"true"` (`visual-view.js:273`, `927-949`); the model treats such a selection as selecting no node. No dn takes those values.
- `Diagram.VisualView.AcceptSourceData`: the layout passes are required to keep node identities and give the root a positive size; a layout that does not is out of scope.
- `Diagram.VisualView.NodePerformExpandCollapse`: the layout passes (auto-expansion among them, `visual-view.js:411`) may change expansion flags, so the keys of the registries are tied to the toggled tree only under the premise that the passes keep its expansion (`KeepsExpansion`). Without it, the model claims only that the keys are the flattened ids of the laid-out tree.
- `LayoutTree.ToggleExpanded`: flips every node carrying the id, where the source flips the one clicked object (`visual-view.js:982`). The two agree because ids are unique within a tree.
- `LayoutTree.Pack`: `_packSourceData` writes `children = []` into the caller's document for a node without children (`visual-view.js:393-395`); the model takes the document as a value, and this mutation of the input is not modelled.
- `Reconcile.KeyedJoin`: ids are unique within a tree, so duplicate keys in one join (where d3 would enter a second element for the duplicate) are not modelled.
- `Diagram.VisualView.HandleVisualNodeClick`: the source reads `visualNode.isSelected`, which `VisualNode` defines; the model takes a node as selected when the store's `selected_dn` names it.
- `SharedStore.ReadExpanded`: a string stored as the dictionary reads every flag as `false`; in JavaScript an index such as `"0"` or the key `"length"` would find a truthy value on a non-empty string.
- Floating-point rounding and NaN are not modelled: coordinates and widths are reals.
- `TextMetrics.MeasureText`: a non-string text converted with `toString` is taken as already converted.
- `ConfigExport.Lower`: lower-cases ASCII letters only; the locale rules of `toLocaleLowerCase` are not modelled.
- `ConfigExport.GetPath`: follows object keys only; lodash's array indexing is not needed for the paths used here.
- YAML dumping and loading (js-yaml), the indent effect (`index.js:52-55`), syntax highlighting, the CodeMirror editor, the Blob download and the clipboard are left out. A text is either the dump of a document (`Dumped`) or what the user typed (`Typed`).
- `ConfigExport.ConfigPanel.DeriveNames`: a throwing mount effect is reported as an outcome rather than propagated to React.
- The animation's duration field always holds 200 ms when set; the clock is the `now` parameter.
- `src/src/components/Timeline/index.js` is not part of this model.

## Findings

| source | as written | input that shows it | evidently intended | confidence | as-written member | corrected member |
|---|---|---|---|---|---|---|
| src/src/components/Diagram/visual-view.js:324-325 | the last tick stores `this._panInterpolator(t)` with the uncapped fraction `t = elapsed / duration`, and ticks fire at 10 ms granularity, so the last one usually has `t > 1` | a pan from (0, 0) to (50, 50), which sits on the bound of a 450 by 350 content in a 400 by 300 viewport, whose last tick fires at 210 ms (t = 1.05), stores (52.5, 52.5), beyond the bound of 50 | cap `t` at 1, so the last tick lands exactly on the clamped target and the camera never leaves the clamp bounds | not executed; follows from d3's linear interpolation | Camera.AsWrittenTickOvershoots | Camera.TickPositionInBounds |

# Worm feeding widget and chat path helpers, in Dafny

This project models the browser side of the Wurmkomposter Drupal module. It
covers two pieces.

**The feeding board** (`js/wormFeeding.js`). The widget keeps its state in
closure variables:

- the board slots (`boardItems`, at most five, each with a chopped flag);
- the fed materials;
- the selected cup and the board lock;
- the colour filter;
- the registry of active pointer drags (`activeDrags`).

Event handlers change that state in place:

- gallery-to-board drops, returns to the gallery and drops into a cup;
- knife sweeps;
- dragging a full cup onto the "feeding done" control;
- clicking a cup to feed the whole board;
- the "feeding done" click, which builds the telemetry body and then resets;
- the quick-feed text box.

The state is modelled twice:

- `FeedingModel` is the pure model. It holds the state as a value
  (`Session`), gives each handler's effect as a function, and proves
  properties of those functions. `FeedingModel.Inv` is the invariant every
  handler keeps:
  - the board's keys are listed once each in insertion order;
  - at most five slots;
  - a selected cup implies a locked board;
  - a non-empty board implies an enabled knife;
  - fed materials have no duplicates.
- `Feeding.FeedingSession` is the class. The closure variables are its
  fields, and each handler is a method that updates them step by step. Its
  loops carry invariants. Each method is proved to leave exactly the state
  the model function gives, and the event entry points keep `Inv` and the
  drag registry's own invariant (`Valid`).

The JavaScript `Map`s iterate in insertion order, and the source relies on
that twice:

- the pointerup loop resolves drags in registry order;
- a cup click feeds the board in slot order.

So each map carries its key order (`order`, `dragOrder`) as a sequence.

The quick-feed helpers, which are pure, are in `QuickFeed`:

- the display name;
- the suggestion filter;
- the exact-text search;
- the arrow-key index clamp.

The JavaScript string operations they need are in `Text`.

**The chat widget's path helpers** (`js/wormchat.js`) are in `WormChat`:

- the fallback video and thought paths for a worm state;
- the png-then-jpg choice of the thought image;
- the search of a JSON:API response for a state's video file, with the
  `public://` rewrite.

What the environment supplies becomes a parameter:

- HTTP HEAD requests become a `found` oracle.
- The decoded JSON:API response becomes an `Option<JsonApiDocument>`.
- Hit-testing (`document.elementFromPoint`) becomes a `Target` on
  pointerdown, the board item under the pointer on pointermove, and a `Zone`
  on pointerup.

Where the code behaves otherwise than a feeding board evidently should, the
model follows the code. Four quirks of the code are proved as such:

- **The selected cup can change.** It is replaced on every cup drop, cup
  drag and cup click, so its size can change before "feeding done"
  (`FeedingModel.SelectedCupCanChange`).
- **The knife can stay enabled on an empty board.** The knife's enabled flag
  is computed from the map entries, which are never marked chopped. A drop
  into a cup does not recompute the flag (`FeedingModel.KnifeOutlivesEmptyBoard`).
- **The cup size has two types.** A drop into a cup records `parseInt` of
  `data-cups`. A cup drag or a cup click records the raw text. Telemetry is
  gated on JavaScript truthiness, so the text "0" passes while the number 0
  does not (`FeedingModel.DroppedZeroCupSendsNothing`,
  `FeedingModel.ClickedCupSendsRawSize`).
- **A quick add can leave the food visible in the gallery.** `addFoodItemToBoard`
  hides the gallery item by looking it up inside the gallery grid. While a
  pointer drags that item, it has been moved out of the grid, so a quick add
  of the same food in that moment puts it on the board and leaves it visible
  (`FeedingModel.QuickAddDuringDragLeavesItemVisible`). A gallery drop hides
  the dragged item itself, so it is always hidden afterwards.

## Model

| member | source | states |
|---|---|---|
| WormChat.FallbackMappingNamesKnownState | drupal-module/wormchat/js/wormchat.js:85-96 | both fallback paths name the same state, which is always in `STATES`: the given key when it is known, "hot" otherwise; the video is `/sites/default/files/worm/<key>.mp4` and the thought path has no extension |
| WormChat.ResolveThoughtImagePath | drupal-module/wormchat/js/wormchat.js:106-135 | the result is the .png or the .jpg path; it is the .jpg exactly when the .png is not found and the .jpg is; whatever it returns was found, unless it is the .png fallback |
| WormChat.IndexOf | drupal-module/wormchat/js/wormchat.js:256 | the first occurrence of the pattern at or after a position, or None when there is none (the search `String.replace` does) |
| WormChat.ToWebPath | drupal-module/wormchat/js/wormchat.js:255-261 | a `public://` URL becomes `/sites/default/files/` plus the rest of the URL; any other URL is unchanged |
| WormChat.FirstIncludedVideo | drupal-module/wormchat/js/wormchat.js:246-270 | a video is found exactly when some included entry yields one, and then it is the one from the first such entry |
| WormChat.MediaForState | drupal-module/wormchat/js/wormchat.js:230-290 | None for a failed request or empty `data`; the first included file wins; otherwise the first item of the node's `field_video_file` |
| Text.LowerCapitalize | drupal-module/wormchat/js/wormFeeding.js:819 | capitalising keeps the length and is invisible after lower-casing |
| Text.TrimStart | drupal-module/wormchat/js/wormFeeding.js:833 | the result is a suffix that does not start with white space, and only white space was cut |
| Text.TrimEnd | drupal-module/wormchat/js/wormFeeding.js:833 | the result is a prefix that does not end with white space, and only white space was cut |
| Text.SplitJoin | drupal-module/wormchat/js/wormFeeding.js:726 | splitting the joined list at the separator gives back the list when no item contains the separator |
| QuickFeed.DisplayName | drupal-module/wormchat/js/wormFeeding.js:819 | the display name is the key with its first letter upper-cased and the rest unchanged; the empty key stays empty; it has the key's length and equals the key after lower-casing |
| QuickFeed.FilterFoodsByKeyPrefix | drupal-module/wormchat/js/wormFeeding.js:842-845 | the filter keeps exactly the foods whose lower-cased key starts with the term, so the name test adds nothing |
| QuickFeed.SuggestionsSpec | drupal-module/wormchat/js/wormFeeding.js:832-845 | a blank input shows nothing; otherwise the suggestions are exactly the foods whose lower-cased key starts with the trimmed, lower-cased input |
| QuickFeed.FindByText | drupal-module/wormchat/js/wormFeeding.js:922-926 | the result is the first food whose name or key equals the text case-insensitively, or None when no food does |
| QuickFeed.NextIndex | drupal-module/wormchat/js/wormFeeding.js:875 | ArrowDown never passes the last suggestion, stays at -1 with no suggestions, and keeps the index in [-1, count-1] |
| QuickFeed.PreviousIndex | drupal-module/wormchat/js/wormFeeding.js:879 | ArrowUp never goes below -1, never increases the index, and decrements a non-negative one |
| Seqs.ExceptSpec | drupal-module/wormchat/js/wormFeeding.js:391 | deleting keys from an insertion-ordered map leaves exactly the other keys, still without duplicates |
| Seqs.ExceptAppend | drupal-module/wormchat/js/wormFeeding.js:391 | deletion keeps the survivors in their order: deleting from a concatenation deletes from each part in place, and a single key is kept exactly when it is not deleted |
| Seqs.ExceptAbsent | drupal-module/wormchat/js/wormFeeding.js:236 | deleting keys none of which is present leaves the key order unchanged |
| Seqs.ExceptExcept | drupal-module/wormchat/js/wormFeeding.js:236 | deleting one set of keys and then another is deleting their union |
| Seqs.AppendAbsentNoDup | drupal-module/wormchat/js/wormFeeding.js:434-435 | pushing a key only when it is not included keeps the list free of duplicates |
| Seqs.AppendAllAbsentSpec | drupal-module/wormchat/js/wormFeeding.js:1007-1008 | recording a list of keys keeps the earlier entries as a prefix, adds exactly the new keys, and keeps the list free of duplicates |
| Seqs.AppendAllAbsentIsExcept | drupal-module/wormchat/js/wormFeeding.js:1003-1008 | recording a list of distinct keys one by one, each unless already recorded, appends exactly the keys not yet recorded, in the list's order |
| FeedingModel.InitialInv | drupal-module/wormchat/js/wormFeeding.js:61-66 | the initial state satisfies the invariant, with the knife disabled and the green filter |
| FeedingModel.KnifeStateIsNonEmptyBoard | drupal-module/wormchat/js/wormFeeding.js:584-588 | while no map entry is marked chopped, the recomputed knife flag is true exactly when the board is not empty |
| FeedingModel.AddToBoardEffect | drupal-module/wormchat/js/wormFeeding.js:541-562 | an accepted add creates exactly one unchopped slot, last in board order; it hides the gallery key when the lookup in the gallery grid finds it and hides nothing otherwise; it enables the knife, keeps at most five unique slots and leaves fed materials, cup and lock alone |
| FeedingModel.GalleryDropEffect | drupal-module/wormchat/js/wormFeeding.js:299-343 | a gallery drop changes the state exactly when it lands on an unlocked board below capacity that lacks the key; then the dragged item ends up hidden, as by an add whose lookup found it; it keeps the invariant |
| FeedingModel.QuickAddIsBoardDrop | drupal-module/wormchat/js/wormFeeding.js:944-956 | the quick-feed add refuses exactly what a board drop refuses; when the grid holds the gallery item it has the same effect, and otherwise it differs from a board drop only in what is hidden |
| FeedingModel.QuickAddDuringDragLeavesItemVisible | drupal-module/wormchat/js/wormFeeding.js:555-559 | a quick add of a food whose gallery item is being dragged puts it on the board but leaves it visible, and the later release of that drag over the board changes nothing |
| FeedingModel.ReturnDropEffect | drupal-module/wormchat/js/wormFeeding.js:383-413 | a return on the gallery deletes the slot from the board and its key order and unhides that one key; every other slot is kept, the knife is enabled iff the board is not empty, and fed materials, cups, lock and filter are unchanged; elsewhere nothing changes |
| FeedingModel.CupDropEffect | drupal-module/wormchat/js/wormFeeding.js:416-470 | a drop into a cup selects it and adds exactly that cup to the full ones; it records the key once, deletes the slot from the board and its order, keeps every other slot as it was, leaves the board locked and hidden items, knife and filter unchanged; elsewhere nothing changes |
| FeedingModel.CupDropKeepsInv | drupal-module/wormchat/js/wormFeeding.js:416-470 | a drop of a chopped item keeps the invariant |
| FeedingModel.RemoveSlot | drupal-module/wormchat/js/wormFeeding.js:439-440 | deleting a slot keeps the board's keys and their order in step and does not grow the board |
| FeedingModel.ChopEffect | drupal-module/wormchat/js/wormFeeding.js:566-581 | chopping a chopped or missing item is a no-op; otherwise the new state is the old one with only that element's flag set and the knife enabled; chopping is idempotent and keeps the invariant |
| FeedingModel.KnifeEnabledWhenAllChopped | drupal-module/wormchat/js/wormFeeding.js:584-588 | with every element chopped, the knife is still enabled, because the map entries stay unchopped |
| FeedingModel.CupToDoneEffect | drupal-module/wormchat/js/wormFeeding.js:648-713 | a cup dropped on "feeding done" is removed from the full cups, which are otherwise unchanged, and is selected with its raw size, and the board is locked; board, order, fed materials, hidden items, knife and filter are unchanged; elsewhere nothing changes |
| FeedingModel.CupClickOnceEffect | drupal-module/wormchat/js/wormFeeding.js:975-1029 | a cup click is refused on an empty or locked board or a full cup; otherwise the fed materials become the earlier ones followed by the board keys not yet fed, in board order, the board is emptied, exactly that cup is added to the full ones and selected, the board locked, and hidden items, knife and filter are unchanged |
| FeedingModel.CupClickRunsOnce | drupal-module/wormchat/js/wormFeeding.js:975-1032 | the second registration of the click handlers changes nothing |
| FeedingModel.CupClickKeepsInv | drupal-module/wormchat/js/wormFeeding.js:975-1029 | a cup click keeps the invariant |
| FeedingModel.ResetIsInitial | drupal-module/wormchat/js/wormFeeding.js:740-769 | the reset yields the initial state whatever came before |
| FeedingModel.FeedingDoneSpec | drupal-module/wormchat/js/wormFeeding.js:717-733 | telemetry is sent iff materials were fed and the cup size is truthy; it carries that size, and its material splits back into the fed keys when no key has a comma |
| FeedingModel.ReleasedAmongSpec | drupal-module/wormchat/js/wormFeeding.js:221-234 | `pointersToDelete` holds exactly the pointers whose drag is a gallery, return or cup-drop drag |
| FeedingModel.RegistryInvSet | drupal-module/wormchat/js/wormFeeding.js:286 | `activeDrags.set` keeps the registry well formed: a new pointer is appended, a known one keeps its place |
| FeedingModel.RegistryInvMinus | drupal-module/wormchat/js/wormFeeding.js:236 | deleting pointers keeps the registry well formed |
| FeedingModel.ResolveAllKeepsInv | drupal-module/wormchat/js/wormFeeding.js:220-237 | resolving any sequence of drags keeps the invariant |
| FeedingModel.ResolveDropKeepsInv | drupal-module/wormchat/js/wormFeeding.js:223-234 | resolving one drag keeps the invariant |
| FeedingModel.ResolveAllOutsideIsNoOp | drupal-module/wormchat/js/wormFeeding.js:220-237 | a release over none of board, gallery and cups changes nothing, however many drags it resolves |
| FeedingModel.SameKeyDroppedTwiceAddsOnce | drupal-module/wormchat/js/wormFeeding.js:220-237 | two pointers dropping the same food in one pointerup add exactly one slot |
| FeedingModel.KnifeOutlivesEmptyBoard | drupal-module/wormchat/js/wormFeeding.js:416-470 | add, chop and drop one food into a cup: the board is empty and the knife still enabled |
| FeedingModel.SelectedCupCanChange | drupal-module/wormchat/js/wormFeeding.js:426-430 | two drops into two cups select the first cup and then the second, with their sizes |
| FeedingModel.DroppedZeroCupSendsNothing | drupal-module/wormchat/js/wormFeeding.js:423-430 | a cup chosen by a drop whose `data-cups` parses to 0 or NaN makes "feeding done" send nothing |
| FeedingModel.ClickedCupSendsRawSize | drupal-module/wormchat/js/wormFeeding.js:990-1023 | a cup chosen by a click with non-empty `data-cups` makes "feeding done" send the fed materials with that raw text |
| FeedingModel.DragStartedSpec | drupal-module/wormchat/js/wormFeeding.js:166-181 | a gallery item starts a drag exactly when the quick-feed add would not refuse it as locked or full, and that drag's drop on the board leaves the food on the board, changing the state iff it was not there; a board item starts the drop drag its chopped flag selects; the knife starts a drag iff enabled; a cup iff full, and "feeding done" then empties it |
| FeedingModel.PointerUpReleases | drupal-module/wormchat/js/wormFeeding.js:220-237 | after a pointerup the released pointer holds no drag and no drop drag is left; only other pointers' knife and cup drags survive, unchanged |
| FeedingModel.PointerUpKeepsInv | drupal-module/wormchat/js/wormFeeding.js:220-237 | a pointerup keeps the invariant |
| FeedingModel.SurvivingIsRegistryMinusReleased | drupal-module/wormchat/js/wormFeeding.js:519-535 | the knife and cup listeners remove only the event's own pointer, so what survives is the registry minus the released drags minus that pointer |
| FeedingModel.ReleasedAmongIsReleasedSet | drupal-module/wormchat/js/wormFeeding.js:221-236 | the pointers the loop collects are exactly the registered drop drags |
| FeedingModel.KnifeSweepIdempotent | drupal-module/wormchat/js/wormFeeding.js:207-215 | a second sweep over the same item changes nothing, and a sweep keeps the invariant |
| FeedingModel.SweepAllIsOneSweep | drupal-module/wormchat/js/wormFeeding.js:183-217 | however many knife drags are active, one pointermove chops at most once; without a knife drag it changes nothing |
| Feeding.FeedingSession.constructor | drupal-module/wormchat/js/wormFeeding.js:61-69 | the widget starts in the initial state with no drags, and is valid |
| Feeding.FeedingSession.UpdateKnifeState | drupal-module/wormchat/js/wormFeeding.js:584-594 | counting the unchopped map entries sets the flag to whether any exists |
| Feeding.FeedingSession.AddFoodItemToBoard | drupal-module/wormchat/js/wormFeeding.js:541-563 | the new state is the model's add, which hides the gallery item only when no registered gallery drag has moved it out of the grid |
| Feeding.FeedingSession.DeleteSlot | drupal-module/wormchat/js/wormFeeding.js:439-440 | the key leaves the board and its order; every other key stays, in order |
| Feeding.FeedingSession.ChopItem | drupal-module/wormchat/js/wormFeeding.js:566-581 | the new state is the model's chop |
| Feeding.FeedingSession.PickCup | drupal-module/wormchat/js/wormFeeding.js:426-430 | the board locks when no cup was selected, then the cup is selected |
| Feeding.FeedingSession.SetDrag | drupal-module/wormchat/js/wormFeeding.js:286 | the pointer maps to the drag, its order place is kept or appended, and the registry stays well formed |
| Feeding.FeedingSession.DeleteDrag | drupal-module/wormchat/js/wormFeeding.js:534 | the pointer leaves the registry and its order |
| Feeding.FeedingSession.HandleGalleryDrop | drupal-module/wormchat/js/wormFeeding.js:299-343 | for a registered drag of the item, the new state is the model's gallery drop, which hides the item |
| Feeding.FeedingSession.HandleReturnDrop | drupal-module/wormchat/js/wormFeeding.js:383-413 | the new state is the model's return drop |
| Feeding.FeedingSession.HandleCupDrop | drupal-module/wormchat/js/wormFeeding.js:416-470 | the new state is the model's cup drop |
| Feeding.FeedingSession.HandleCupToDoneDrop | drupal-module/wormchat/js/wormFeeding.js:648-713 | the new state is the model's cup-to-"feeding done" drop |
| Feeding.FeedingSession.PointerDown | drupal-module/wormchat/js/wormFeeding.js:166-181 | the registry gains exactly the drag the model allows, its pointer is appended to the registry order unless already registered, nothing else changes, and the registry stays valid |
| Feeding.FeedingSession.SweepKnives | drupal-module/wormchat/js/wormFeeding.js:183-217 | the loop over the registry leaves the model's sweep of every drag in order |
| Feeding.FeedingSession.PointerMove | drupal-module/wormchat/js/wormFeeding.js:183-217 | a pointermove chops once if any knife drag is active, otherwise changes nothing, and keeps the widget valid |
| Feeding.FeedingSession.ResolveOne | drupal-module/wormchat/js/wormFeeding.js:223-234 | dispatching one drag leaves the model's resolution of it |
| Feeding.FeedingSession.ResolveDrops | drupal-module/wormchat/js/wormFeeding.js:220-234 | the loop leaves the model's resolution of every drag in registry order and returns `pointersToDelete` |
| Feeding.FeedingSession.DeleteDrags | drupal-module/wormchat/js/wormFeeding.js:236 | deleting the collected pointers removes exactly them from the registry and its order |
| Feeding.FeedingSession.EndOwnDrag | drupal-module/wormchat/js/wormFeeding.js:519-535 | the pointer's own knife or cup drag ends; a cup drag is resolved first |
| Feeding.FeedingSession.ReleaseDrops | drupal-module/wormchat/js/wormFeeding.js:220-237 | the shared listener resolves every drag and removes exactly the drop drags |
| Feeding.FeedingSession.ReleasePointer | drupal-module/wormchat/js/wormFeeding.js:220-237 | the three pointerup listeners leave the model's pointerup state and the surviving registry |
| Feeding.FeedingSession.PointerUp | drupal-module/wormchat/js/wormFeeding.js:220-237 | as ReleasePointer, and the widget stays valid |
| Feeding.FeedingSession.RecordFed | drupal-module/wormchat/js/wormFeeding.js:434-435 | the key is appended unless already fed |
| Feeding.FeedingSession.FeedBoard | drupal-module/wormchat/js/wormFeeding.js:1003-1014 | every board key is recorded in board order unless already fed, and the board ends empty |
| Feeding.FeedingSession.CupClickHandler | drupal-module/wormchat/js/wormFeeding.js:977-1027 | one click listener leaves the model's single cup click |
| Feeding.FeedingSession.CupClick | drupal-module/wormchat/js/wormFeeding.js:975-1032 | both listeners together leave the model's cup click and keep the widget valid |
| Feeding.FeedingSession.FeedingDoneClick | drupal-module/wormchat/js/wormFeeding.js:718-733 | the returned body is the model's telemetry, sent only with fed materials and a selected cup's size |
| Feeding.FeedingSession.Reset | drupal-module/wormchat/js/wormFeeding.js:740-769 | the delayed reset yields the initial state and a valid widget |
| Feeding.FeedingSession.SelectColor | drupal-module/wormchat/js/wormFeeding.js:94-103 | only the filter changes |
| Feeding.FeedingSession.AddFoodByKey | drupal-module/wormchat/js/wormFeeding.js:944-956 | the outcome and state are the model's quick add, with the hide depending on whether a registered gallery drag holds the item, and the widget stays valid |
| Feeding.FeedingSession.AddFoodByText | drupal-module/wormchat/js/wormFeeding.js:922-941 | the first matching food is added as by `addFoodByKey`; no match changes nothing |
| Feeding.FeedingSession.SelectSuggestion | drupal-module/wormchat/js/wormFeeding.js:907-919 | a suggestion naming a food is added as by `addFoodByKey`; any other changes nothing |

## Left out

- FeedingModel.GalleryItemInGrid: whether the gallery grid still holds an item is read off the drag registry. During the 100 ms snap-back after a refused gallery drop, the item is outside the grid although its drag is already deleted; a quick add in that window would leave it visible, which the model does not capture.
- DOM presentation is not modelled: positions, transforms, CSS classes, the snap-back animations and their 100 ms timers, image sources other than the cups' full/empty state, the gallery border colour, and which gallery items the colour filter shows. Only the filter's value is kept.
- Hit-testing is the caller's: `document.elementFromPoint` and `closest` become the `Target`, the knife's board item and the `Zone` parameters. On a pointerup the model resolves every drag against one `Zone`, although each drop handler hit-tests again and an earlier handler may have changed the page in between; a later handler seeing a different element is not captured.
- The one-second delay before the reset is not modelled; the reset is its own method, `Reset`, for the caller to run.
- `sendTelemetry` is not modelled: the POST, the CSRF token and the timestamp are I/O and the clock. `FeedingDoneClick` returns the body that would be sent.
- `parseInt` itself is not modelled: each cup carries its parsed `data-cups` value as an input.
- The cups are assumed to start empty: the page template that draws them is not part of this model.
- The quick-feed text box's DOM is not modelled: the rendering of suggestions, the highlight, Escape, the outside-click close and the focus reload of `allFoods`. The food list is a parameter.
- The dispatch of the Enter key and the add button to `selectSuggestion` or `addFoodByText` is not modelled: it reads the rendered suggestion list, which is DOM state.
- Text.Lower: `toLowerCase`/`toUpperCase` are modelled on the one-to-one case pairs of Latin-1 (with Ÿ/ÿ) only. Beyond them, for example Greek or Cyrillic food names, the model leaves letters unchanged, so `addFoodByText` with "Ωμέγα" would not find the key "ωμέγα" in the model though the browser finds it; the sharp s, whose capital is "SS", is also left unchanged.
- FeedingModel.Inv: states only that a non-empty board has an enabled knife, not the converse, because the source does not keep the converse (`FeedingModel.KnifeOutlivesEmptyBoard`).
- `getDeviceKey`, `getWormState`, `getRandomState`, `updateWormState` and the chat behaviour's button wiring are not modelled: they are network calls, randomness and DOM updates around the modelled path helpers.
- The PHP controllers and blocks and `js/wormSetup.js` are not part of this model.

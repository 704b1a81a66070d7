/**
 * The state of the feeding widget (js/wormFeeding.js) as a value, and every
 * handler's effect on it as a function. The class Feeding.FeedingSession
 * holds the same state in fields and implements the handlers step by step;
 * each of its methods is proved to produce the value these functions give.
 *
 * Cups are identified by their position in the page's list of cups; a cup's
 * id and size are its `data-cup-id` and `data-cups` attributes.
 */
module FeedingModel {
  import opened Wrappers
  import opened Seqs
  import Text

  const MaxBoardItems: nat := 5
  const DefaultColorFilter: string := "green"

  /** One entry of `boardItems` with the `data-is-chopped` flag of its board
      element. The knife marks only the element (`domChopped`); the map entry
      (`mapChopped`) is written false when the slot is created and never
      changes, and it is the one the knife's enabled state is computed from. */
  datatype Slot = Slot(mapChopped: bool, domChopped: bool)

  /** A cup of the page: its `data-cup-id`, its `data-cups` text and what
      `parseInt` makes of that text (None for NaN). */
  datatype Cup = Cup(id: string, cups: string, parsed: Option<int>)

  /** The size recorded for the selected cup: a drop of a chopped item
      stores the parsed number, the cup-to-"feeding done" drop and the cup
      click store the attribute text itself. */
  datatype CupSize = Parsed(number: Option<int>) | Raw(text: string)

  /** `selectedCup` once a cup was chosen (its `element` is not modelled). */
  datatype SelectedCup = SelectedCup(id: string, size: CupSize)

  /** What the hit-test finds under a pointer: the board, the gallery, one of
      the cups, the "feeding done" control, or none of them. */
  datatype Zone = BoardZone | GalleryZone | CupZone(cup: nat) | DoneZone | NoZone

  /** The element a pointerdown lands on. */
  datatype Target = GalleryItem(key: string) | BoardItem(key: string) | KnifeButton | CupImage(cup: nat) | Elsewhere

  /** The entry of `activeDrags` for one pointer: its drag kind and subject. */
  datatype Drag =
    | GalleryToBoard(key: string)
    | UnchoppedToGallery(key: string)
    | ChoppedToCup(key: string)
    | Knife
    | CupToDone(cup: nat)

  /** What the quick-feed add reports (the source logs it). */
  datatype AddOutcome = Added | LockedOrFull | AlreadyOnBoard

  /** The body handed to `sendTelemetry`; the timestamp comes from the clock. */
  datatype Telemetry = Telemetry(material: string, amountCups: CupSize)

  /** The closure state of one feeding widget, except the drag registry.
      `order` is the insertion order of the keys of `boardItems`; `hidden` the
      gallery keys whose item is hidden; `full` the cups whose image shows
      them full. */
  datatype Session = Session(
    board: map<string, Slot>,
    order: seq<string>,
    hidden: set<string>,
    fed: seq<string>,
    selected: Option<SelectedCup>,
    locked: bool,
    full: set<nat>,
    knifeEnabled: bool,
    filter: string)

  predicate ZoneOk(cups: seq<Cup>, zone: Zone) {
    zone.CupZone? ==> zone.cup < |cups|
  }

  /** What every handler preserves: the key order lists the board's keys
      once each; at most five slots; no map entry is ever marked chopped; a
      selected cup implies a locked board; a non-empty board implies an
      enabled knife; full cups exist; fed materials have no duplicates. */
  ghost predicate Inv(cups: seq<Cup>, s: Session) {
    && NoDup(s.order)
    && (forall k :: k in s.board ==> k in s.order)
    && (forall k :: k in s.order ==> k in s.board)
    && |s.board| <= MaxBoardItems
    && (forall k :: k in s.board ==> !s.board[k].mapChopped)
    && (s.selected.Some? ==> s.locked)
    && (s.board != map[] ==> s.knifeEnabled)
    && (forall c :: c in s.full ==> c < |cups|)
    && NoDup(s.fed)
  }

  /** The state right after initialisation: nothing on the board, no cup,
      unlocked, knife disabled, green filter. Every cup starts empty. */
  function Initial(): Session {
    Session(map[], [], {}, [], None, false, {}, false, DefaultColorFilter)
  }

  /** `updateKnifeState`: some map entry is recorded unchopped. */
  predicate HasUnchopped(board: map<string, Slot>) {
    exists k :: k in board && !board[k].mapChopped
  }

  /** The guard of a gallery drop on the board. */
  predicate CanAccept(s: Session, key: string) {
    !s.locked && |s.board| < MaxBoardItems && key !in s.board
  }

  /** Whether the gallery grid still holds the item of `key`: a gallery
      drag moves its item out of the grid into the widget's wrapper until the
      drop puts it back. */
  predicate GalleryItemInGrid(drags: map<int, Drag>, key: string) {
    forall q :: q in drags ==> drags[q] != GalleryToBoard(key)
  }

  /** `addFoodItemToBoard`: a new unchopped slot at the end of the board and
      the knife recomputed; the gallery item is hidden only when the lookup
      in the grid finds it (`found`). */
  function AddToBoard(s: Session, key: string, found: bool): Session {
    var board := s.board[key := Slot(false, false)];
    s.(board := board, order := s.order + [key], hidden := if found then s.hidden + {key} else s.hidden,
       knifeEnabled := HasUnchopped(board))
  }

  /** `handleGalleryItemPointerUp`: the dragged item is outside the grid, so
      the add does not find it; the handler hides it itself once it is back. */
  function GalleryDrop(s: Session, key: string, zone: Zone): Session {
    if zone == BoardZone && CanAccept(s, key) then
      var r := AddToBoard(s, key, false);
      r.(hidden := r.hidden + {key})
    else s
  }

  /** The checks of `addFoodByKey`, in its order. */
  function QuickAddOutcome(s: Session, key: string): AddOutcome {
    if s.locked || |s.board| >= MaxBoardItems then LockedOrFull
    else if key in s.board then AlreadyOnBoard
    else Added
  }

  /** `addFoodByKey`; `found` tells whether the grid holds the item. */
  function QuickAdd(s: Session, key: string, found: bool): Session {
    if QuickAddOutcome(s, key) == Added then AddToBoard(s, key, found) else s
  }

  /** `handleUnchoppedItemPointerUp`: on the gallery the slot is deleted, the
      gallery item shown again and the knife recomputed. */
  function ReturnDrop(s: Session, key: string, zone: Zone): Session {
    if zone == GalleryZone then
      var board := s.board - {key};
      s.(board := board, order := Except(s.order, {key}), hidden := s.hidden - {key},
         knifeEnabled := HasUnchopped(board))
    else s
  }

  /** The cup update shared by the three cup paths: lock when no cup was
      selected yet, then select the cup. */
  function SelectCup(s: Session, cup: SelectedCup): Session {
    s.(locked := s.locked || s.selected.None?, selected := Some(cup))
  }

  /** `handleChoppedItemPointerUp`: on a cup, select it, show it full, record
      the key once, delete the slot, and lock when the board is empty. The
      knife is not recomputed. */
  function CupDrop(cups: seq<Cup>, s: Session, key: string, zone: Zone): Session
    requires ZoneOk(cups, zone)
  {
    if zone.CupZone? then
      var picked := SelectCup(s, SelectedCup(cups[zone.cup].id, Parsed(cups[zone.cup].parsed)));
      var board := s.board - {key};
      picked.(full := s.full + {zone.cup}, fed := AppendAbsent(s.fed, key),
              board := board, order := Except(s.order, {key}),
              locked := picked.locked || board == map[])
    else s
  }

  /** `chopItemWithKnife`: a no-op on a chopped element; otherwise the
      element is marked chopped and the knife recomputed from the map. */
  function Chop(s: Session, key: string): Session {
    if key in s.board && !s.board[key].domChopped then
      var board := s.board[key := s.board[key].(domChopped := true)];
      s.(board := board, knifeEnabled := HasUnchopped(board))
    else s
  }

  /** One knife drag's move: chop the unchopped board item under the pointer. */
  function KnifeSweep(s: Session, hit: Option<string>): Session {
    if hit.Some? && hit.value in s.board && !s.board[hit.value].domChopped then Chop(s, hit.value) else s
  }

  /** The cup pointerup handler: on the "feeding done" control the cup is
      shown empty again and selected; the board locks when no cup was
      selected before or the board is empty. */
  function CupToDoneDrop(cups: seq<Cup>, s: Session, cup: nat, zone: Zone): Session
    requires cup < |cups|
  {
    if zone == DoneZone then
      var picked := SelectCup(s.(full := s.full - {cup}), SelectedCup(cups[cup].id, Raw(cups[cup].cups)));
      picked.(locked := picked.locked || s.board == map[])
    else s
  }

  /** One cup click handler: refused on an empty board, a locked board or a
      full cup; otherwise every board key is fed in board order, the board
      emptied, the cup shown full and selected. */
  function CupClickOnce(cups: seq<Cup>, s: Session, cup: nat): Session
    requires cup < |cups|
  {
    if s.board == map[] || s.locked || cup in s.full then s
    else
      SelectCup(s.(fed := AppendAllAbsent(s.fed, s.order), board := map[], order := [],
                   full := s.full + {cup}), SelectedCup(cups[cup].id, Raw(cups[cup].cups)))
  }

  /** A click on a cup: the click handlers are registered twice, so both run. */
  function CupClick(cups: seq<Cup>, s: Session, cup: nat): Session
    requires cup < |cups|
  {
    CupClickOnce(cups, CupClickOnce(cups, s, cup), cup)
  }

  /** The delayed reset after "feeding done". The drag registry is untouched. */
  function Reset(s: Session): Session {
    s.(board := map[], order := [], full := {}, hidden := {}, fed := [], selected := None,
       locked := false, filter := DefaultColorFilter, knifeEnabled := HasUnchopped(map[]))
  }

  /** JavaScript truthiness of the recorded size: a number other than 0 and
      NaN, or a non-empty text (so the text "0" is truthy). */
  predicate Truthy(size: CupSize) {
    match size
    case Parsed(n) => n.Some? && n.value != 0
    case Raw(t) => t != ""
  }

  /** The click on "feeding done": the telemetry body, sent only with fed
      materials and a truthy cup size. */
  function FeedingDone(s: Session): Option<Telemetry> {
    if |s.fed| > 0 && s.selected.Some? && Truthy(s.selected.value.size) then
      Some(Telemetry(Text.Join(s.fed, ","), s.selected.value.size))
    else None
  }

  /** A color category button. */
  function SelectColor(s: Session, color: string): Session {
    s.(filter := color)
  }

  /** The drag kinds the shared pointerup loop resolves, whichever pointer
      was released. */
  predicate ReleasedByAnyPointer(d: Drag) {
    d.GalleryToBoard? || d.UnchoppedToGallery? || d.ChoppedToCup?
  }

  /** Whether the entry of pointer `q` is still registered after a pointerup
      of pointer `p`: knife and cup drags end only with their own pointer. */
  predicate SurvivesPointerUp(d: Drag, q: int, p: int) {
    !ReleasedByAnyPointer(d) && !(q == p && (d.Knife? || d.CupToDone?))
  }

  /** The drop handler the shared pointerup loop calls for one drag. */
  function ResolveDrop(cups: seq<Cup>, s: Session, d: Drag, zone: Zone): Session
    requires ZoneOk(cups, zone)
  {
    match d
    case GalleryToBoard(k) => GalleryDrop(s, k, zone)
    case UnchoppedToGallery(k) => ReturnDrop(s, k, zone)
    case ChoppedToCup(k) => CupDrop(cups, s, k, zone)
    case _ => s
  }

  /** The shared pointerup loop: every drag of `ps`, in order, resolved at
      the same zone. */
  function ResolveAll(cups: seq<Cup>, s: Session, drags: map<int, Drag>, ps: seq<int>, zone: Zone): Session
    requires ZoneOk(cups, zone)
    requires forall i :: 0 <= i < |ps| ==> ps[i] in drags
    decreases |ps|
  {
    if ps == [] then s
    else ResolveDrop(cups, ResolveAll(cups, s, drags, ps[..|ps| - 1], zone), drags[ps[|ps| - 1]], zone)
  }

  /** `pointersToDelete`: the pointers of `ps` whose drag the loop resolves. */
  function ReleasedAmong(drags: map<int, Drag>, ps: seq<int>): seq<int>
    requires forall i :: 0 <= i < |ps| ==> ps[i] in drags
    decreases |ps|
  {
    if ps == [] then []
    else
      var init := ReleasedAmong(drags, ps[..|ps| - 1]);
      if ReleasedByAnyPointer(drags[ps[|ps| - 1]]) then init + [ps[|ps| - 1]] else init
  }

  /** `pointersToDelete` holds exactly the pointers of `ps` whose drag is
      released by any pointer. */
  lemma {:induction false} ReleasedAmongSpec(drags: map<int, Drag>, ps: seq<int>)
    requires forall i :: 0 <= i < |ps| ==> ps[i] in drags
    ensures forall q :: q in ReleasedAmong(drags, ps) <==> q in ps && ReleasedByAnyPointer(drags[q])
    decreases |ps|
  {
    if ps != [] {
      ReleasedAmongSpec(drags, ps[..|ps| - 1]);
      assert ps == ps[..|ps| - 1] + [ps[|ps| - 1]];
      assert forall q :: q in ps <==> q in ps[..|ps| - 1] || q == ps[|ps| - 1];
    }
  }

  /** One more step of the pointerup loop: the prefix through `i` is the
      prefix before it followed by the drag at `i`. */
  lemma ResolveStep(cups: seq<Cup>, s: Session, drags: map<int, Drag>, ps: seq<int>, i: nat, zone: Zone)
    requires ZoneOk(cups, zone) && i < |ps|
    requires forall j :: 0 <= j < |ps| ==> ps[j] in drags
    ensures ResolveAll(cups, s, drags, ps[..i + 1], zone)
         == ResolveDrop(cups, ResolveAll(cups, s, drags, ps[..i], zone), drags[ps[i]], zone)
    ensures ReleasedAmong(drags, ps[..i + 1])
         == ReleasedAmong(drags, ps[..i]) + (if ReleasedByAnyPointer(drags[ps[i]]) then [ps[i]] else [])
  {
    assert ps[..i + 1][..i] == ps[..i];
  }

  /** Some drag of `ps` is a knife drag. */
  predicate KnifeAmong(drags: map<int, Drag>, ps: seq<int>) {
    exists i :: 0 <= i < |ps| && ps[i] in drags && drags[ps[i]].Knife?
  }

  /** Every registered cup drag names a cup of the page. */
  predicate DragsOk(cups: seq<Cup>, drags: map<int, Drag>) {
    forall q :: q in drags && drags[q].CupToDone? ==> drags[q].cup < |cups|
  }

  /** The drag registry and its insertion order: every registered pointer
      is listed once, nothing else is listed, and every cup drag names a cup
      of the page. */
  ghost predicate RegistryInv(cups: seq<Cup>, drags: map<int, Drag>, order: seq<int>) {
    && NoDup(order)
    && (forall q :: q in drags ==> q in order)
    && (forall q :: q in order ==> q in drags)
    && (forall i :: 0 <= i < |order| ==> order[i] in drags)
    && DragsOk(cups, drags)
  }

  /** `activeDrags.set`: a new pointer is appended, a known one keeps its
      place, and the registry stays well formed. */
  lemma RegistryInvSet(cups: seq<Cup>, drags: map<int, Drag>, order: seq<int>, p: int, d: Drag)
    requires RegistryInv(cups, drags, order)
    requires d.CupToDone? ==> d.cup < |cups|
    ensures RegistryInv(cups, drags[p := d], if p in drags then order else order + [p])
  {
    var order' := if p in drags then order else order + [p];
    if p !in drags {
      assert AppendAbsent(order, p) == order';
      assert forall i :: 0 <= i < |order| ==> order'[i] == order[i];
    }
  }

  /** `activeDrags.delete` of a set of pointers: the registry stays well
      formed, in the order of the surviving pointers. */
  lemma RegistryInvMinus(cups: seq<Cup>, drags: map<int, Drag>, order: seq<int>, gone: set<int>)
    requires RegistryInv(cups, drags, order)
    ensures RegistryInv(cups, drags - gone, Except(order, gone))
  {
    var order' := Except(order, gone);
    ExceptSpec(order, gone);
    assert forall i :: 0 <= i < |order'| ==> order'[i] in order';
  }

  /** The drag a pointerdown registers, if any: a gallery drag unless the
      board is locked or full; a board-item drag whose kind follows the
      element's chopped flag; a knife drag only while the knife is enabled;
      a cup drag only for a full cup. */
  function DragStarted(s: Session, target: Target): Option<Drag> {
    match target
    case GalleryItem(k) => if s.locked || |s.board| >= MaxBoardItems then None else Some(GalleryToBoard(k))
    case BoardItem(k) =>
      if k !in s.board then None
      else if s.board[k].domChopped then Some(ChoppedToCup(k))
      else Some(UnchoppedToGallery(k))
    case KnifeButton => if s.knifeEnabled then Some(Knife) else None
    case CupImage(c) => if c in s.full then Some(CupToDone(c)) else None
    case Elsewhere => None
  }

  /** The drag registry after a pointerup of pointer `p`. */
  function Surviving(drags: map<int, Drag>, p: int): map<int, Drag> {
    map q | q in drags && SurvivesPointerUp(drags[q], q, p) :: drags[q]
  }

  /** The pointers whose drag the shared pointerup loop resolves. */
  function ReleasedSet(drags: map<int, Drag>): set<int> {
    set q | q in drags && ReleasedByAnyPointer(drags[q])
  }

  /** The state after a pointerup of pointer `p` at `zone`: the shared loop
      resolves every drag in registry order, then the knife listener (no
      state change) and the cup listener run for `p`'s own drag. */
  function PointerUpEffect(cups: seq<Cup>, s: Session, drags: map<int, Drag>, ps: seq<int>, p: int, zone: Zone): Session
    requires ZoneOk(cups, zone) && DragsOk(cups, drags)
    requires forall i :: 0 <= i < |ps| ==> ps[i] in drags
  {
    var r := ResolveAll(cups, s, drags, ps, zone);
    if p in drags && drags[p].CupToDone? then CupToDoneDrop(cups, r, drags[p].cup, zone) else r
  }

  // ----- Properties of the transitions -----

  lemma InitialInv(cups: seq<Cup>)
    ensures Inv(cups, Initial())
    ensures !Initial().knifeEnabled && Initial().filter == DefaultColorFilter
  {
  }

  /** Every slot's map entry is unchopped, so recomputing the knife state
      enables the knife exactly when the board is not empty. */
  lemma KnifeStateIsNonEmptyBoard(board: map<string, Slot>)
    requires forall k :: k in board ==> !board[k].mapChopped
    ensures HasUnchopped(board) <==> board != map[]
  {
    if board != map[] {
      var k :| k in board;
      assert !board[k].mapChopped;
    }
  }

  /** An accepted add creates exactly one unchopped slot, last in board
      order, and enables the knife; board size stays at most five and keys
      stay unique. The gallery item is hidden when it was found in the grid,
      and nothing is hidden otherwise. */
  lemma AddToBoardEffect(cups: seq<Cup>, s: Session, key: string, found: bool)
    requires Inv(cups, s) && CanAccept(s, key)
    ensures var r := AddToBoard(s, key, found);
      && Inv(cups, r)
      && r.board.Keys == s.board.Keys + {key}
      && |r.board| == |s.board| + 1
      && r.board[key] == Slot(false, false)
      && (forall k :: k in s.board ==> r.board[k] == s.board[k])
      && r.order == s.order + [key]
      && (found ==> r.hidden == s.hidden + {key}) && (!found ==> r.hidden == s.hidden)
      && r.knifeEnabled
      && r.fed == s.fed && r.selected == s.selected && r.locked == s.locked && r.full == s.full
  {
    var r := AddToBoard(s, key, found);
    assert key in r.board && !r.board[key].mapChopped;
    assert NoDup(r.order) by {
      assert forall i :: 0 <= i < |s.order| ==> s.order[i] in s.board;
    }
  }

  /** A gallery drop adds the key exactly when it lands on the board while
      the board is unlocked, below capacity and without that key, and then
      the gallery item ends up hidden; any other drop leaves the state as it
      was. */
  lemma GalleryDropEffect(cups: seq<Cup>, s: Session, key: string, zone: Zone)
    requires Inv(cups, s)
    ensures Inv(cups, GalleryDrop(s, key, zone))
    ensures GalleryDrop(s, key, zone) != s <==> zone == BoardZone && CanAccept(s, key)
    ensures GalleryDrop(s, key, zone) != s ==>
      GalleryDrop(s, key, zone) == AddToBoard(s, key, true) && key in GalleryDrop(s, key, zone).hidden
  {
    if zone == BoardZone && CanAccept(s, key) {
      AddToBoardEffect(cups, s, key, false);
      assert key !in s.board;
    }
  }

  /** The quick-feed path refuses exactly what the drop path refuses. When
      the grid holds the item it adds exactly as a drop on the board does;
      otherwise the only difference is that the item is not hidden. */
  lemma QuickAddIsBoardDrop(s: Session, key: string, found: bool)
    ensures QuickAddOutcome(s, key) == Added <==> CanAccept(s, key)
    ensures found ==> QuickAdd(s, key, found) == GalleryDrop(s, key, BoardZone)
    ensures QuickAdd(s, key, found).(hidden := GalleryDrop(s, key, BoardZone).hidden) == GalleryDrop(s, key, BoardZone)
  {
  }

  /** A quick add of a food whose gallery item is being dragged puts it on
      the board but leaves the item visible; the drag's drop on the board is
      then refused, so the item stays visible while its food is on the
      board. */
  lemma QuickAddDuringDragLeavesItemVisible(cups: seq<Cup>, s: Session, key: string, p: int, drags: map<int, Drag>)
    requires CanAccept(s, key) && key !in s.hidden
    requires p in drags && drags[p] == GalleryToBoard(key)
    ensures var r := QuickAdd(s, key, GalleryItemInGrid(drags, key));
      && key in r.board && key !in r.hidden
      && ResolveDrop(cups, r, drags[p], BoardZone) == r
  {
    assert !GalleryItemInGrid(drags, key);
  }

  /** Returning a slot to the gallery deletes it from the board and its key
      order, shows the gallery item again and keeps every other slot; a drop
      elsewhere changes nothing. */
  lemma ReturnDropEffect(cups: seq<Cup>, s: Session, key: string, zone: Zone)
    requires Inv(cups, s)
    ensures var r := ReturnDrop(s, key, zone);
      && Inv(cups, r)
      && (zone != GalleryZone ==> r == s)
      && (zone == GalleryZone ==>
            && r.board.Keys == s.board.Keys - {key}
            && (forall k :: k in r.board ==> r.board[k] == s.board[k])
            && r.order == Except(s.order, {key})
            && r.hidden == s.hidden - {key}
            && r.knifeEnabled == (r.board != map[])
            && r.fed == s.fed && r.selected == s.selected && r.locked == s.locked && r.full == s.full
            && r.filter == s.filter)
  {
    if zone == GalleryZone {
      var r := ReturnDrop(s, key, zone);
      ExceptSpec(s.order, {key});
      KnifeStateIsNonEmptyBoard(r.board);
    }
  }

  /** A drop into a cup selects that cup and shows it full, records the key
      exactly once, deletes the slot, and leaves the board locked: either a
      cup was already selected (so it was locked) or this selection locks it. */
  lemma CupDropEffect(cups: seq<Cup>, s: Session, key: string, zone: Zone)
    requires Inv(cups, s) && ZoneOk(cups, zone)
    ensures var r := CupDrop(cups, s, key, zone);
      && (!zone.CupZone? ==> r == s)
      && (zone.CupZone? ==>
            && r.selected == Some(SelectedCup(cups[zone.cup].id, Parsed(cups[zone.cup].parsed)))
            && r.full == s.full + {zone.cup}
            && key in r.fed && NoDup(r.fed)
            && r.fed == (if key in s.fed then s.fed else s.fed + [key])
            && r.board.Keys == s.board.Keys - {key}
            && (forall k :: k in r.board ==> r.board[k] == s.board[k])
            && r.order == Except(s.order, {key})
            && r.locked
            && r.hidden == s.hidden && r.knifeEnabled == s.knifeEnabled && r.filter == s.filter)
  {
  }

  /** A drop of a chopped item keeps the invariant. */
  lemma CupDropKeepsInv(cups: seq<Cup>, s: Session, key: string, zone: Zone)
    requires Inv(cups, s) && ZoneOk(cups, zone)
    ensures Inv(cups, CupDrop(cups, s, key, zone))
  {
    if zone.CupZone? {
      var r := CupDrop(cups, s, key, zone);
      RemoveSlot(s.board, s.order, key);
      AppendAbsentNoDup(s.fed, key);
      assert forall c :: c in r.full ==> c < |cups|;
    }
  }

  /** Removing one key from the board and from the order list keeps the two
      in step and shrinks neither below the other. */
  lemma RemoveSlot(board: map<string, Slot>, order: seq<string>, key: string)
    requires NoDup(order)
    requires forall k :: k in board ==> k in order
    requires forall k :: k in order ==> k in board
    ensures NoDup(Except(order, {key}))
    ensures forall k :: k in board - {key} ==> k in Except(order, {key})
    ensures forall k :: k in Except(order, {key}) ==> k in board - {key}
    ensures (board - {key}).Keys == board.Keys - {key}
    ensures |board - {key}| <= |board|
  {
    ExceptSpec(order, {key});
    assert (board - {key}).Keys == board.Keys - {key};
  }

  /** Chopping touches only the element flag of one slot: a chopped or
      missing slot is left alone; the knife stays enabled because the map
      entries are never marked chopped. */
  lemma ChopEffect(cups: seq<Cup>, s: Session, key: string)
    requires Inv(cups, s)
    ensures var r := Chop(s, key);
      && Inv(cups, r)
      && (key !in s.board || s.board[key].domChopped ==> r == s)
      && (key in s.board && !s.board[key].domChopped ==>
            && r == s.(board := s.board[key := Slot(false, true)], knifeEnabled := true))
      && Chop(r, key) == r
  {
    var r := Chop(s, key);
    if key in s.board && !s.board[key].domChopped {
      KnifeStateIsNonEmptyBoard(r.board);
    }
  }

  /** With every board element chopped the knife is still enabled: the
      enabled state only looks at the map entries, which chopping leaves
      unchopped. */
  lemma KnifeEnabledWhenAllChopped(cups: seq<Cup>, s: Session)
    requires Inv(cups, s)
    requires s.board != map[]
    requires forall k :: k in s.board ==> s.board[k].domChopped
    ensures s.knifeEnabled
    ensures HasUnchopped(s.board)
  {
    KnifeStateIsNonEmptyBoard(s.board);
  }

  /** The cup-to-"feeding done" drop: the cup is emptied and selected and
      the board locked; a drop elsewhere changes nothing. */
  lemma CupToDoneEffect(cups: seq<Cup>, s: Session, cup: nat, zone: Zone)
    requires Inv(cups, s) && cup < |cups|
    ensures var r := CupToDoneDrop(cups, s, cup, zone);
      && Inv(cups, r)
      && (zone != DoneZone ==> r == s)
      && (zone == DoneZone ==>
            && r.full == s.full - {cup}
            && r.selected == Some(SelectedCup(cups[cup].id, Raw(cups[cup].cups))) && r.locked
            && r.board == s.board && r.order == s.order && r.fed == s.fed
            && r.hidden == s.hidden && r.knifeEnabled == s.knifeEnabled && r.filter == s.filter)
  {
  }

  /** A cup click is refused on an empty board, a locked board or a full
      cup. Otherwise every board key, chopped or not, ends up in the fed
      materials after the earlier ones and without duplicates, the board is
      empty, the cup full and selected and the board locked. */
  lemma CupClickOnceEffect(cups: seq<Cup>, s: Session, cup: nat)
    requires Inv(cups, s) && cup < |cups|
    ensures var r := CupClickOnce(cups, s, cup);
      && Inv(cups, r)
      && (s.board == map[] || s.locked || cup in s.full ==> r == s)
      && (s.board != map[] && !s.locked && cup !in s.full ==>
            && r.board == map[] && r.order == []
            && (forall k :: k in r.fed <==> k in s.fed || k in s.board)
            && r.fed == s.fed + Except(s.order, set k | k in s.fed)
            && r.full == s.full + {cup}
            && r.selected == Some(SelectedCup(cups[cup].id, Raw(cups[cup].cups))) && r.locked
            && r.hidden == s.hidden && r.knifeEnabled == s.knifeEnabled && r.filter == s.filter)
  {
    AppendAllAbsentSpec(s.fed, s.order);
    AppendAllAbsentIsExcept(s.fed, s.order);
  }

  /** The second registration of the cup click handler never changes
      anything: after the first one the board is empty or nothing happened. */
  lemma CupClickRunsOnce(cups: seq<Cup>, s: Session, cup: nat)
    requires cup < |cups|
    ensures CupClick(cups, s, cup) == CupClickOnce(cups, s, cup)
  {
  }

  /** Both registered click listeners together keep the invariant. */
  lemma CupClickKeepsInv(cups: seq<Cup>, s: Session, cup: nat)
    requires Inv(cups, s) && cup < |cups|
    ensures Inv(cups, CupClick(cups, s, cup))
  {
    CupClickRunsOnce(cups, s, cup);
    CupClickOnceEffect(cups, s, cup);
  }

  /** The reset yields the initial state whatever happened before. */
  lemma ResetIsInitial(s: Session)
    ensures Reset(s) == Initial()
  {
  }

  /** Telemetry is produced exactly when materials were fed and a cup size
      is set, and its material splits back into the fed keys in feeding
      order when no key contains a comma. */
  lemma FeedingDoneSpec(s: Session)
    ensures FeedingDone(s).Some? <==> |s.fed| > 0 && s.selected.Some? && Truthy(s.selected.value.size)
    ensures FeedingDone(s).Some? ==> FeedingDone(s).value.amountCups == s.selected.value.size
    ensures FeedingDone(s).Some? && (forall i :: 0 <= i < |s.fed| ==> ',' !in s.fed[i]) ==>
      Text.Split(FeedingDone(s).value.material, ',') == s.fed
  {
    if FeedingDone(s).Some? && (forall i :: 0 <= i < |s.fed| ==> ',' !in s.fed[i]) {
      Text.SplitJoin(s.fed, ',');
    }
  }

  /** Resolving any sequence of registered drags keeps the invariant. */
  lemma {:induction false} ResolveAllKeepsInv(cups: seq<Cup>, s: Session, drags: map<int, Drag>, ps: seq<int>, zone: Zone)
    requires Inv(cups, s) && ZoneOk(cups, zone)
    requires forall i :: 0 <= i < |ps| ==> ps[i] in drags
    ensures Inv(cups, ResolveAll(cups, s, drags, ps, zone))
    decreases |ps|
  {
    if ps != [] {
      var init := ps[..|ps| - 1];
      ResolveAllKeepsInv(cups, s, drags, init, zone);
      ResolveDropKeepsInv(cups, ResolveAll(cups, s, drags, init, zone), drags[ps[|ps| - 1]], zone);
    }
  }

  /** Resolving one drag keeps the invariant. */
  lemma ResolveDropKeepsInv(cups: seq<Cup>, s: Session, d: Drag, zone: Zone)
    requires Inv(cups, s) && ZoneOk(cups, zone)
    ensures Inv(cups, ResolveDrop(cups, s, d, zone))
  {
    match d
    case GalleryToBoard(k) => GalleryDropEffect(cups, s, k, zone);
    case UnchoppedToGallery(k) => ReturnDropEffect(cups, s, k, zone);
    case ChoppedToCup(k) => CupDropKeepsInv(cups, s, k, zone);
    case _ =>
  }

  /** A release over none of the board, the gallery and the cups changes
      nothing, however many drags it resolves. */
  lemma {:induction false} ResolveAllOutsideIsNoOp(cups: seq<Cup>, s: Session, drags: map<int, Drag>, ps: seq<int>, zone: Zone)
    requires zone == NoZone || zone == DoneZone
    requires forall i :: 0 <= i < |ps| ==> ps[i] in drags
    ensures ResolveAll(cups, s, drags, ps, zone) == s
    decreases |ps|
  {
    if ps != [] {
      ResolveAllOutsideIsNoOp(cups, s, drags, ps[..|ps| - 1], zone);
    }
  }

  /** Two pointers dropping the same food on the board in one pointerup: the
      first drop adds it, the second finds it on the board and is refused. */
  lemma SameKeyDroppedTwiceAddsOnce(cups: seq<Cup>, s: Session, key: string, p1: int, p2: int)
    requires Inv(cups, s) && CanAccept(s, key) && p1 != p2
    ensures var drags := map[p1 := GalleryToBoard(key), p2 := GalleryToBoard(key)];
      var r := ResolveAll(cups, s, drags, [p1, p2], BoardZone);
      && r == GalleryDrop(s, key, BoardZone)
      && |r.board| == |s.board| + 1
  {
    var drags := map[p1 := GalleryToBoard(key), p2 := GalleryToBoard(key)];
    assert [p1, p2][..1] == [p1];
    assert [p1][..0] == [];
    AddToBoardEffect(cups, s, key, false);
    assert drags[p1] == GalleryToBoard(key) && drags[p2] == GalleryToBoard(key);
    assert ResolveAll(cups, s, drags, [], BoardZone) == s;
    var first := ResolveAll(cups, s, drags, [p1], BoardZone);
    assert first == ResolveDrop(cups, s, drags[p1], BoardZone);
    assert first == GalleryDrop(s, key, BoardZone);
    assert !CanAccept(first, key);
    assert ResolveAll(cups, s, drags, [p1, p2], BoardZone) == GalleryDrop(first, key, BoardZone);
  }

  /** The knife can stay enabled on an empty board: a cup drop does not
      recompute it. Add one food, chop it, drop it into a cup. */
  lemma KnifeOutlivesEmptyBoard(cups: seq<Cup>)
    requires |cups| >= 1
    ensures var s := CupDrop(cups, Chop(AddToBoard(Initial(), "apple", true), "apple"), "apple", CupZone(0));
      s.board == map[] && s.knifeEnabled
  {
    var a := AddToBoard(Initial(), "apple", true);
    assert "apple" in a.board && !a.board["apple"].mapChopped;
    var c := Chop(a, "apple");
    assert "apple" in c.board && !c.board["apple"].mapChopped;
    assert c.knifeEnabled;
  }

  /** The selected cup, and with it the size reported in telemetry, can
      change within one feeding session: two chopped foods dropped into two
      different cups. */
  lemma SelectedCupCanChange(cupA: Cup, cupB: Cup)
    ensures var cups := [cupA, cupB];
      var s0 := Chop(Chop(AddToBoard(AddToBoard(Initial(), "apple", true), "pear", true), "apple"), "pear");
      var s1 := CupDrop(cups, s0, "apple", CupZone(0));
      var s2 := CupDrop(cups, s1, "pear", CupZone(1));
      s1.selected == Some(SelectedCup(cupA.id, Parsed(cupA.parsed)))
      && s2.selected == Some(SelectedCup(cupB.id, Parsed(cupB.parsed)))
      && s1.locked && s2.locked
  {
  }

  /** A cup chosen by a drop records its parsed size, so a cup whose
      `data-cups` text reads 0 or is no number leaves a falsy size behind and
      "feeding done" sends nothing. */
  lemma DroppedZeroCupSendsNothing(cups: seq<Cup>, s: Session, key: string, cup: nat)
    requires cup < |cups| && (cups[cup].parsed == Some(0) || cups[cup].parsed.None?)
    ensures FeedingDone(CupDrop(cups, s, key, CupZone(cup))).None?
  {
  }

  /** A cup chosen by a click records its raw `data-cups` text, so any
      non-empty text (even "0") is truthy: clicking a cup that is not full,
      with items on an unlocked board, makes "feeding done" send the fed
      materials and that text. */
  lemma ClickedCupSendsRawSize(cups: seq<Cup>, s: Session, cup: nat)
    requires Inv(cups, s) && cup < |cups| && cups[cup].cups != ""
    requires s.board != map[] && !s.locked && cup !in s.full
    ensures var r := CupClick(cups, s, cup);
      FeedingDone(r) == Some(Telemetry(Text.Join(r.fed, ","), Raw(cups[cup].cups)))
  {
    CupClickOnceEffect(cups, s, cup);
    var once := CupClickOnce(cups, s, cup);
    assert CupClick(cups, s, cup) == once;
    var k :| k in s.board;
    assert k in once.fed;
  }

  /** A pointerdown registers a drag exactly on a draggable target, and
      the drag is one its drop can act on. A gallery item starts a drag
      exactly when the quick-feed add would not refuse it for a locked or full
      board, and dropping that drag on the board then adds the food unless it
      is already there. A board item starts the drop drag its element's chopped
      flag selects, the knife a drag only while enabled, a full cup a drag that
      the "feeding done" control empties. */
  lemma DragStartedSpec(cups: seq<Cup>, s: Session, target: Target)
    requires Inv(cups, s)
    ensures target.GalleryItem? ==>
      DragStarted(s, target) == (if QuickAddOutcome(s, target.key) == LockedOrFull then None else Some(GalleryToBoard(target.key)))
    ensures target.GalleryItem? && DragStarted(s, target).Some? ==>
      target.key in GalleryDrop(s, target.key, BoardZone).board && (GalleryDrop(s, target.key, BoardZone) != s <==> target.key !in s.board)
    ensures target.BoardItem? ==> (DragStarted(s, target).Some? <==> target.key in s.board)
    ensures target.BoardItem? && target.key in s.board ==>
      DragStarted(s, target) == Some(if s.board[target.key].domChopped then ChoppedToCup(target.key) else UnchoppedToGallery(target.key))
    ensures target == KnifeButton ==> (DragStarted(s, target) == Some(Knife) <==> s.knifeEnabled)
    ensures target.CupImage? ==> DragStarted(s, target) == (if target.cup in s.full then Some(CupToDone(target.cup)) else None)
    ensures target.CupImage? && DragStarted(s, target).Some? ==>
      target.cup < |cups| && target.cup !in CupToDoneDrop(cups, s, target.cup, DoneZone).full
    ensures target == Elsewhere ==> DragStarted(s, target).None?
  {
    if target.GalleryItem? && DragStarted(s, target).Some? && target.key !in s.board {
      assert target.key in GalleryDrop(s, target.key, BoardZone).board;
    }
  }

  /** After a pointerup the released pointer holds no drag, no drop drag of
      any pointer is left, and only the knife and cup drags of other
      pointers stay registered, unchanged. */
  lemma PointerUpReleases(drags: map<int, Drag>, p: int)
    ensures p !in Surviving(drags, p)
    ensures forall q :: q in Surviving(drags, p) ==>
      q in drags && Surviving(drags, p)[q] == drags[q] && (drags[q].Knife? || drags[q].CupToDone?)
    ensures forall q :: q in drags && q != p && (drags[q].Knife? || drags[q].CupToDone?) ==> q in Surviving(drags, p)
  {
  }

  /** A pointerup keeps the invariant, whichever drags it resolves. */
  lemma PointerUpKeepsInv(cups: seq<Cup>, s: Session, drags: map<int, Drag>, ps: seq<int>, p: int, zone: Zone)
    requires Inv(cups, s) && ZoneOk(cups, zone) && DragsOk(cups, drags)
    requires forall i :: 0 <= i < |ps| ==> ps[i] in drags
    ensures Inv(cups, PointerUpEffect(cups, s, drags, ps, p, zone))
  {
    ResolveAllKeepsInv(cups, s, drags, ps, zone);
    if p in drags && drags[p].CupToDone? {
      CupToDoneEffect(cups, ResolveAll(cups, s, drags, ps, zone), drags[p].cup, zone);
    }
  }

  /** A second knife drag over the same item finds it chopped: a sweep is
      idempotent, and it keeps the invariant. */
  lemma KnifeSweepIdempotent(cups: seq<Cup>, s: Session, hit: Option<string>)
    requires Inv(cups, s)
    ensures KnifeSweep(KnifeSweep(s, hit), hit) == KnifeSweep(s, hit)
    ensures Inv(cups, KnifeSweep(s, hit))
  {
    if hit.Some? {
      ChopEffect(cups, s, hit.value);
    }
  }

  /** The pointermove loop: every drag of `ps`, in order; a knife drag
      sweeps the item under the pointer. */
  function SweepAll(s: Session, drags: map<int, Drag>, ps: seq<int>, hit: Option<string>): Session
    requires forall i :: 0 <= i < |ps| ==> ps[i] in drags
    decreases |ps|
  {
    if ps == [] then s
    else
      var r := SweepAll(s, drags, ps[..|ps| - 1], hit);
      if drags[ps[|ps| - 1]].Knife? then KnifeSweep(r, hit) else r
  }

  /** However many knife drags are active, one pointermove chops at most
      once: the loop sweeps once when some drag is a knife drag, and
      changes nothing otherwise. */
  lemma {:induction false} SweepAllIsOneSweep(cups: seq<Cup>, s: Session, drags: map<int, Drag>, ps: seq<int>, hit: Option<string>)
    requires Inv(cups, s)
    requires forall i :: 0 <= i < |ps| ==> ps[i] in drags
    ensures SweepAll(s, drags, ps, hit) == if KnifeAmong(drags, ps) then KnifeSweep(s, hit) else s
    decreases |ps|
  {
    if ps != [] {
      var init := ps[..|ps| - 1];
      SweepAllIsOneSweep(cups, s, drags, init, hit);
      KnifeSweepIdempotent(cups, s, hit);
      assert forall j :: 0 <= j < |init| ==> init[j] == ps[j];
      assert KnifeAmong(drags, ps) <==> KnifeAmong(drags, init) || drags[ps[|ps| - 1]].Knife?;
    }
  }

  /** Every drag kind ends with its own pointer's pointerup, so what
      survives is the registry without the released drags and without `p`. */
  lemma SurvivingIsRegistryMinusReleased(drags: map<int, Drag>, p: int)
    ensures var rest := drags - ReleasedSet(drags);
      && (p in rest ==> rest[p] == drags[p] && (drags[p].Knife? || drags[p].CupToDone?))
      && (p in rest && rest[p].CupToDone? <==> p in drags && drags[p].CupToDone?)
      && rest - {p} == Surviving(drags, p)
      && Surviving(drags, p) == drags - (ReleasedSet(drags) + {p})
  {
  }

  /** What the shared loop returns is the released set. */
  lemma ReleasedAmongIsReleasedSet(drags: map<int, Drag>, ps: seq<int>)
    requires forall i :: 0 <= i < |ps| ==> ps[i] in drags
    requires forall q :: q in drags ==> q in ps
    ensures forall q :: q in ReleasedAmong(drags, ps) <==> q in ReleasedSet(drags)
  {
    ReleasedAmongSpec(drags, ps);
  }
}

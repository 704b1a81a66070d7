/**
 * The feeding widget as the source runs it: the closure variables of one
 * widget become the fields of a FeedingSession, each event handler and
 * helper a method that updates them in place. Every handler is proved to
 * leave the state that the corresponding FeedingModel function describes;
 * the event entry points also keep FeedingModel.Inv and the drag
 * registry's invariant (Valid).
 *
 * Hit-testing is the caller's: an event arrives with the Target under the
 * pointer (pointerdown), the board item under the knife (pointermove) or the
 * Zone under the pointer (pointerup).
 */
module Feeding {
  import opened Wrappers
  import opened Seqs
  import opened FeedingModel
  import QuickFeed

  class FeedingSession {
    /** The cups of the page, in document order. */
    const cups: seq<Cup>
    /** `boardItems` and the insertion order of its keys. */
    var board: map<string, Slot>
    var order: seq<string>
    /** Gallery keys whose item is hidden. */
    var hidden: set<string>
    /** `fedMaterials` */
    var fed: seq<string>
    /** `selectedCup`, None while its id is null. */
    var selected: Option<SelectedCup>
    /** `isBoardLocked` */
    var locked: bool
    /** Cups whose image shows them full. */
    var full: set<nat>
    /** The knife button's `data-knife-enabled` flag. */
    var knifeEnabled: bool
    /** `currentColorFilter` */
    var filter: string
    /** `activeDrags` and the insertion order of its pointer ids. */
    var drags: map<int, Drag>
    var dragOrder: seq<int>

    function State(): Session
      reads this`board, this`order, this`hidden, this`fed, this`selected, this`locked,
        this`full, this`knifeEnabled, this`filter
    {
      Session(board, order, hidden, fed, selected, locked, full, knifeEnabled, filter)
    }

    /** The key order lists exactly the board's keys. */
    ghost predicate Keyed()
      reads this`board, this`order
    {
      (forall k :: k in board ==> k in order) && (forall k :: k in order ==> k in board)
    }

    /** The pointer order lists every registered pointer once, and every cup
        drag names a cup of the page. */
    ghost predicate RegistryOk()
      reads this`drags, this`dragOrder
    {
      RegistryInv(cups, drags, dragOrder)
    }

    ghost predicate Valid()
      reads this`board, this`order, this`hidden, this`fed, this`selected, this`locked,
        this`full, this`knifeEnabled, this`filter, this`drags, this`dragOrder
    {
      Inv(cups, State()) && RegistryOk()
    }

    /** The widget right after initialisation. */
    constructor (cups: seq<Cup>)
      ensures this.cups == cups
      ensures State() == Initial()
      ensures drags == map[] && dragOrder == []
      ensures Valid()
    {
      this.cups := cups;
      board := map[];
      order := [];
      hidden := {};
      fed := [];
      selected := None;
      locked := false;
      full := {};
      knifeEnabled := false;
      filter := DefaultColorFilter;
      drags := map[];
      dragOrder := [];
    }

    // ----- Helpers -----

    /** `updateKnifeState`: count the unchopped map entries. */
    method UpdateKnifeState()
      requires Keyed()
      modifies this`knifeEnabled
      ensures knifeEnabled == HasUnchopped(board)
    {
      var unchopped := 0;
      var i := 0;
      while i < |order|
        invariant 0 <= i <= |order|
        invariant 0 <= unchopped
        invariant unchopped > 0 <==> exists j :: 0 <= j < i && !board[order[j]].mapChopped
      {
        if !board[order[i]].mapChopped {
          unchopped := unchopped + 1;
        }
        i := i + 1;
      }
      if HasUnchopped(board) {
        var k :| k in board && !board[k].mapChopped;
        var j :| 0 <= j < |order| && order[j] == k;
      }
      knifeEnabled := unchopped > 0;
    }

    /** `addFoodItemToBoard`: the gallery item is hidden only if the grid
        holds it, that is, unless a gallery drag has moved it out. */
    method AddFoodItemToBoard(key: string)
      requires Keyed() && key !in board
      modifies this`board, this`order, this`hidden, this`knifeEnabled
      ensures Keyed()
      ensures State() == AddToBoard(old(State()), key, GalleryItemInGrid(drags, key))
    {
      board := board[key := Slot(false, false)];
      order := order + [key];
      if GalleryItemInGrid(drags, key) {
        hidden := hidden + {key};
      }
      UpdateKnifeState();
    }

    /** `element.remove(); boardItems.delete(foodKey)` */
    method DeleteSlot(key: string)
      requires Keyed()
      modifies this`board, this`order
      ensures Keyed()
      ensures board == old(board) - {key}
      ensures order == Except(old(order), {key})
    {
      ExceptSpec(order, {key});
      board := board - {key};
      order := Except(order, {key});
    }

    /** The deletion of the first board entry, the one a `forEach` over the
        entries visits next. */
    method DeleteFirstSlot()
      requires Keyed() && NoDup(order) && order != []
      modifies this`board, this`order
      ensures Keyed() && NoDup(order)
      ensures board == old(board) - {old(order)[0]}
      ensures order == old(order)[1..]
    {
      ExceptFirst(order);
      DeleteSlot(order[0]);
    }

    /** `chopItemWithKnife` on the board element of `key`. */
    method ChopItem(key: string)
      requires Keyed() && key in board
      modifies this`board, this`knifeEnabled
      ensures Keyed()
      ensures State() == Chop(old(State()), key)
    {
      if board[key].domChopped {
        return;
      }
      board := board[key := board[key].(domChopped := true)];
      UpdateKnifeState();
    }

    /** The cup update shared by the three cup paths. */
    method PickCup(cup: SelectedCup)
      modifies this`locked, this`selected
      ensures State() == SelectCup(old(State()), cup)
    {
      if selected.None? {
        locked := true;
      }
      selected := Some(cup);
    }

    /** `activeDrags.set(pointerId, drag)`: a new pointer goes last, a known
        one keeps its place. */
    method SetDrag(p: int, d: Drag)
      requires RegistryOk()
      requires d.CupToDone? ==> d.cup < |cups|
      modifies this`drags, this`dragOrder
      ensures drags == old(drags)[p := d]
      ensures dragOrder == if p in old(drags) then old(dragOrder) else old(dragOrder) + [p]
      ensures RegistryOk()
    {
      RegistryInvSet(cups, drags, dragOrder, p, d);
      if p !in drags {
        dragOrder := dragOrder + [p];
      }
      drags := drags[p := d];
    }

    /** `activeDrags.delete(pointerId)` */
    method DeleteDrag(p: int)
      requires RegistryOk()
      modifies this`drags, this`dragOrder
      ensures drags == old(drags) - {p}
      ensures dragOrder == Except(old(dragOrder), {p})
      ensures RegistryOk()
    {
      RegistryInvMinus(cups, drags, dragOrder, {p});
      drags := drags - {p};
      dragOrder := Except(dragOrder, {p});
    }

    // ----- Drop handlers -----

    /** `handleGalleryItemPointerUp` for a registered gallery drag of `key`. */
    method HandleGalleryDrop(key: string, zone: Zone)
      requires Keyed() && !GalleryItemInGrid(drags, key)
      modifies this`board, this`order, this`hidden, this`knifeEnabled
      ensures Keyed()
      ensures State() == GalleryDrop(old(State()), key, zone)
    {
      if zone == BoardZone && !locked && |board| < MaxBoardItems && key !in board {
        AddFoodItemToBoard(key);
        hidden := hidden + {key};
      }
    }

    /** `handleUnchoppedItemPointerUp` */
    method HandleReturnDrop(key: string, zone: Zone)
      requires Keyed()
      modifies this`board, this`order, this`hidden, this`knifeEnabled
      ensures Keyed()
      ensures State() == ReturnDrop(old(State()), key, zone)
    {
      if zone == GalleryZone {
        DeleteSlot(key);
        hidden := hidden - {key};
        UpdateKnifeState();
      }
    }

    /** `handleChoppedItemPointerUp` */
    method HandleCupDrop(key: string, zone: Zone)
      requires Keyed() && ZoneOk(cups, zone)
      modifies this`board, this`order, this`fed, this`selected, this`locked, this`full
      ensures Keyed()
      ensures State() == CupDrop(cups, old(State()), key, zone)
    {
      if zone.CupZone? {
        var cup := cups[zone.cup];
        PickCup(SelectedCup(cup.id, Parsed(cup.parsed)));
        full := full + {zone.cup};
        RecordFed(key);
        DeleteSlot(key);
        if board == map[] {
          locked := true;
        }
      }
    }

    /** The cup pointerup listener's drop on the "feeding done" control. */
    method HandleCupToDoneDrop(cup: nat, zone: Zone)
      requires cup < |cups|
      modifies this`selected, this`locked, this`full
      ensures State() == CupToDoneDrop(cups, old(State()), cup, zone)
    {
      if zone == DoneZone {
        full := full - {cup};
        PickCup(SelectedCup(cups[cup].id, Raw(cups[cup].cups)));
        if board == map[] {
          locked := true;
        }
      }
    }

    // ----- Pointer events -----

    /** The pointerdown listeners: the unified one for gallery and board
        items, the knife's and the cups'. */
    method PointerDown(p: int, target: Target)
      requires Valid()
      requires target.CupImage? ==> target.cup < |cups|
      modifies this`drags, this`dragOrder
      ensures Valid()
      ensures drags == match DragStarted(old(State()), target)
        case Some(d) => old(drags)[p := d]
        case None => old(drags)
      ensures dragOrder == match DragStarted(old(State()), target)
        case Some(_) => if p in old(drags) then old(dragOrder) else old(dragOrder) + [p]
        case None => old(dragOrder)
    {
      match target
      case GalleryItem(k) =>
        if !locked && |board| < MaxBoardItems {
          SetDrag(p, GalleryToBoard(k));
        }
      case BoardItem(k) =>
        if k in board {
          SetDrag(p, if board[k].domChopped then ChoppedToCup(k) else UnchoppedToGallery(k));
        }
      case KnifeButton =>
        if knifeEnabled {
          SetDrag(p, Knife);
        }
      case CupImage(c) =>
        if c in full {
          SetDrag(p, CupToDone(c));
        }
      case Elsewhere =>
    }

    /** The pointermove listener: every knife drag, in registry order, chops
        the unchopped board item under the event's pointer. */
    method SweepKnives(hit: Option<string>)
      requires Keyed()
      requires forall i :: 0 <= i < |dragOrder| ==> dragOrder[i] in drags
      modifies this`board, this`knifeEnabled
      ensures Keyed()
      ensures State() == SweepAll(old(State()), drags, dragOrder, hit)
    {
      var i := 0;
      while i < |dragOrder|
        invariant 0 <= i <= |dragOrder|
        invariant Keyed()
        invariant State() == SweepAll(old(State()), drags, dragOrder[..i], hit)
      {
        assert dragOrder[..i + 1][..i] == dragOrder[..i];
        if drags[dragOrder[i]].Knife? {
          if hit.Some? && hit.value in board && !board[hit.value].domChopped {
            ChopItem(hit.value);
          }
        }
        i := i + 1;
      }
      assert dragOrder[..|dragOrder|] == dragOrder;
    }

    /** A pointermove event chops at most once and keeps the widget's
        invariants. */
    method PointerMove(hit: Option<string>)
      requires Valid()
      modifies this`board, this`knifeEnabled
      ensures Valid()
      ensures State() == if KnifeAmong(drags, dragOrder) then KnifeSweep(old(State()), hit) else old(State())
    {
      ghost var s0 := State();
      SweepKnives(hit);
      SweepAllIsOneSweep(cups, s0, drags, dragOrder, hit);
      KnifeSweepIdempotent(cups, s0, hit);
    }

    /** The drop handler the shared pointerup loop calls for the drag of
        pointer `p`. */
    method ResolveOne(p: int, zone: Zone)
      requires Keyed() && ZoneOk(cups, zone) && p in drags
      modifies this`board, this`order, this`hidden, this`fed, this`selected, this`locked,
        this`full, this`knifeEnabled
      ensures Keyed()
      ensures State() == ResolveDrop(cups, old(State()), drags[p], zone)
    {
      match drags[p] {
        case GalleryToBoard(k) => HandleGalleryDrop(k, zone);
        case UnchoppedToGallery(k) => HandleReturnDrop(k, zone);
        case ChoppedToCup(k) => HandleCupDrop(k, zone);
        case _ =>
      }
    }

    /** The loop of the shared pointerup listener: every drop drag, in
        registry order, is resolved at the event's zone; the pointers it
        resolved are returned (`pointersToDelete`). */
    method ResolveDrops(zone: Zone) returns (released: seq<int>)
      requires Keyed() && ZoneOk(cups, zone)
      requires forall i :: 0 <= i < |dragOrder| ==> dragOrder[i] in drags
      modifies this`board, this`order, this`hidden, this`fed, this`selected, this`locked,
        this`full, this`knifeEnabled
      ensures State() == ResolveAll(cups, old(State()), drags, dragOrder, zone)
      ensures released == ReleasedAmong(drags, dragOrder)
    {
      var ps := dragOrder;
      released := [];
      var i := 0;
      while i < |ps|
        invariant 0 <= i <= |ps|
        invariant Keyed()
        invariant State() == ResolveAll(cups, old(State()), drags, ps[..i], zone)
        invariant released == ReleasedAmong(drags, ps[..i])
      {
        ResolveOne(ps[i], zone);
        if ReleasedByAnyPointer(drags[ps[i]]) {
          released := released + [ps[i]];
        }
        ResolveStep(cups, old(State()), drags, ps, i, zone);
        i := i + 1;
      }
      assert ps[..|ps|] == ps;
    }

    /** `pointersToDelete.forEach(id => activeDrags.delete(id))`; `gone` is
        the set of those pointers. */
    method DeleteDrags(ids: seq<int>, ghost gone: set<int>)
      requires RegistryOk()
      requires forall q :: q in gone <==> q in ids
      modifies this`drags, this`dragOrder
      ensures RegistryOk()
      ensures drags == old(drags) - gone
      ensures dragOrder == Except(old(dragOrder), gone)
    {
      ghost var deleted: set<int> := {};
      ExceptAbsent(dragOrder, {});
      var j := 0;
      while j < |ids|
        invariant 0 <= j <= |ids|
        invariant forall q :: q in deleted <==> q in ids[..j]
        invariant drags == old(drags) - deleted
        invariant dragOrder == Except(old(dragOrder), deleted)
      {
        assert ids[..j + 1] == ids[..j] + [ids[j]];
        ExceptExcept(old(dragOrder), deleted, {ids[j]});
        assert drags - {ids[j]} == old(drags) - (deleted + {ids[j]});
        drags := drags - {ids[j]};
        dragOrder := Except(dragOrder, {ids[j]});
        deleted := deleted + {ids[j]};
        j := j + 1;
      }
      assert ids[..|ids|] == ids;
      assert forall q :: q in deleted <==> q in gone;
      assert deleted == gone;
      RegistryInvMinus(cups, old(drags), old(dragOrder), gone);
    }

    /** The knife's and the cups' pointerup listeners: each ends the
        pointer's own drag of its kind; the cups' one resolves it first. */
    method EndOwnDrag(p: int, zone: Zone)
      requires RegistryOk()
      requires p in drags ==> drags[p].Knife? || drags[p].CupToDone?
      modifies this`selected, this`locked, this`full, this`drags, this`dragOrder
      ensures RegistryOk()
      ensures State() == if p in old(drags) && old(drags)[p].CupToDone?
        then CupToDoneDrop(cups, old(State()), old(drags)[p].cup, zone) else old(State())
      ensures drags == old(drags) - {p}
      ensures dragOrder == Except(old(dragOrder), {p})
    {
      if p !in drags {
        assert p !in dragOrder;
        ExceptAbsent(dragOrder, {p});
        return;
      }
      if drags[p].Knife? {
        DeleteDrag(p);
      }
      if p in drags && drags[p].CupToDone? {
        HandleCupToDoneDrop(drags[p].cup, zone);
        DeleteDrag(p);
      }
    }

    /** The shared pointerup listener: every drop drag is resolved at the
        event's zone, in registry order, and then deleted. */
    method ReleaseDrops(zone: Zone)
      requires Keyed() && RegistryOk() && ZoneOk(cups, zone)
      modifies this`board, this`order, this`hidden, this`fed, this`selected, this`locked,
        this`full, this`knifeEnabled, this`drags, this`dragOrder
      ensures RegistryOk()
      ensures State() == ResolveAll(cups, old(State()), old(drags), old(dragOrder), zone)
      ensures drags == old(drags) - ReleasedSet(old(drags))
      ensures dragOrder == Except(old(dragOrder), ReleasedSet(old(drags)))
    {
      var released := ResolveDrops(zone);
      ReleasedAmongIsReleasedSet(drags, dragOrder);
      DeleteDrags(released, ReleasedSet(drags));
    }

    /** The pointerup listeners, in registration order: the shared one
        resolves and then deletes every drop drag at the event's zone, the
        knife's ends the pointer's own knife drag, the cups' resolves and
        ends the pointer's own cup drag. */
    method ReleasePointer(p: int, zone: Zone)
      requires Keyed() && RegistryOk() && ZoneOk(cups, zone)
      modifies this`board, this`order, this`hidden, this`fed, this`selected, this`locked,
        this`full, this`knifeEnabled, this`drags, this`dragOrder
      ensures RegistryOk()
      ensures State() == PointerUpEffect(cups, old(State()), old(drags), old(dragOrder), p, zone)
      ensures drags == Surviving(old(drags), p)
      ensures dragOrder == Except(old(dragOrder), ReleasedSet(old(drags)) + {p})
    {
      ghost var d0, o0 := drags, dragOrder;
      SurvivingIsRegistryMinusReleased(d0, p);
      ReleaseDrops(zone);
      EndOwnDrag(p, zone);
      ExceptExcept(o0, ReleasedSet(d0), {p});
    }

    /** A pointerup event keeps the widget's invariants. */
    method PointerUp(p: int, zone: Zone)
      requires Valid() && ZoneOk(cups, zone)
      modifies this`board, this`order, this`hidden, this`fed, this`selected, this`locked,
        this`full, this`knifeEnabled, this`drags, this`dragOrder
      ensures Valid()
      ensures State() == PointerUpEffect(cups, old(State()), old(drags), old(dragOrder), p, zone)
      ensures drags == Surviving(old(drags), p)
      ensures dragOrder == Except(old(dragOrder), ReleasedSet(old(drags)) + {p})
    {
      ghost var s0, d0, o0 := State(), drags, dragOrder;
      ReleasePointer(p, zone);
      PointerUpKeepsInv(cups, s0, d0, o0, p, zone);
    }

    // ----- Clicks -----

    /** `if (!fedMaterials.includes(key)) fedMaterials.push(key)` */
    method RecordFed(key: string)
      modifies this`fed
      ensures fed == AppendAbsent(old(fed), key)
    {
      if key !in fed {
        fed := fed + [key];
      }
    }

    /** The `forEach` over `boardItems.entries()` of a cup click: every key,
        in board order, is recorded unless already fed, and its slot deleted. */
    method FeedBoard()
      requires Keyed() && NoDup(order)
      modifies this`board, this`order, this`fed
      ensures fed == AppendAllAbsent(old(fed), old(order))
      ensures board == map[] && order == []
    {
      ghost var done: seq<string> := [];
      while order != []
        invariant Keyed() && NoDup(order)
        invariant old(order) == done + order
        invariant fed == AppendAllAbsent(old(fed), done)
        decreases |order|
      {
        var key := order[0];
        ghost var before := order;
        RecordFed(key);
        DeleteFirstSlot();
        assert old(order) == (done + [key]) + order by {
          MoveHead(done, before);
        }
        AppendAllAbsentSnoc(old(fed), done, key);
        done := done + [key];
      }
      assert done == old(order);
      assert board.Keys == {};
    }

    /** One of the two identical cup click listeners. */
    method CupClickHandler(cup: nat)
      requires Keyed() && NoDup(order) && cup < |cups|
      modifies this`board, this`order, this`fed, this`selected, this`locked, this`full
      ensures Keyed() && NoDup(order)
      ensures State() == CupClickOnce(cups, old(State()), cup)
    {
      if board == map[] || locked || cup in full {
        return;
      }
      FeedBoard();
      full := full + {cup};
      PickCup(SelectedCup(cups[cup].id, Raw(cups[cup].cups)));
    }

    /** A click on a cup runs both registered listeners. */
    method CupClick(cup: nat)
      requires Valid() && cup < |cups|
      modifies this`board, this`order, this`fed, this`selected, this`locked, this`full
      ensures State() == FeedingModel.CupClick(cups, old(State()), cup)
      ensures Valid()
    {
      ghost var s0 := State();
      CupClickHandler(cup);
      CupClickHandler(cup);
      CupClickKeepsInv(cups, s0, cup);
    }

    /** The click on "feeding done": the telemetry body, if any is sent.
        The reset follows one second later as Reset. */
    method FeedingDoneClick() returns (telemetry: Option<Telemetry>)
      ensures telemetry == FeedingDone(State())
      ensures telemetry.Some? ==> |fed| > 0 && selected.Some? && telemetry.value.amountCups == selected.value.size
    {
      if |fed| > 0 && selected.Some? && Truthy(selected.value.size) {
        telemetry := Some(Telemetry(Text.Join(fed, ","), selected.value.size));
      } else {
        telemetry := None;
      }
    }

    /** The delayed reset after "feeding done". */
    method Reset()
      requires RegistryOk()
      modifies this`board, this`order, this`hidden, this`fed, this`selected, this`locked,
        this`full, this`knifeEnabled, this`filter
      ensures State() == FeedingModel.Reset(old(State()))
      ensures State() == Initial()
      ensures Valid()
    {
      ghost var s0 := State();
      board := map[];
      order := [];
      full := {};
      hidden := {};
      fed := [];
      selected := None;
      locked := false;
      filter := DefaultColorFilter;
      UpdateKnifeState();
      ResetIsInitial(s0);
      InitialInv(cups);
    }

    /** A color category button. */
    method SelectColor(color: string)
      requires Valid()
      modifies this`filter
      ensures State() == FeedingModel.SelectColor(old(State()), color)
      ensures Valid()
    {
      filter := color;
    }

    // ----- Quick feed -----

    /** `addFoodByKey` */
    method AddFoodByKey(key: string) returns (outcome: AddOutcome)
      requires Valid()
      modifies this`board, this`order, this`hidden, this`knifeEnabled
      ensures outcome == QuickAddOutcome(old(State()), key)
      ensures State() == QuickAdd(old(State()), key, GalleryItemInGrid(drags, key))
      ensures Valid()
    {
      ghost var s0 := State();
      if locked || |board| >= MaxBoardItems {
        return LockedOrFull;
      }
      if key in board {
        return AlreadyOnBoard;
      }
      AddFoodItemToBoard(key);
      outcome := Added;
      AddToBoardEffect(cups, s0, key, GalleryItemInGrid(drags, key));
    }

    /** `addFoodByText`: the first food matching the text is added; None
        when no food matches. */
    method AddFoodByText(foods: seq<string>, text: string) returns (outcome: Option<AddOutcome>)
      requires Valid()
      modifies this`board, this`order, this`hidden, this`knifeEnabled
      ensures outcome.None? <==> QuickFeed.FindByText(foods, text).None?
      ensures outcome.Some? ==> outcome.value == QuickAddOutcome(old(State()), QuickFeed.FindByText(foods, text).value)
      ensures State() == match QuickFeed.FindByText(foods, text)
        case Some(k) => QuickAdd(old(State()), k, GalleryItemInGrid(drags, k))
        case None => old(State())
      ensures Valid()
    {
      match QuickFeed.FindByText(foods, text)
      case Some(k) =>
        var r := AddFoodByKey(k);
        outcome := Some(r);
      case None =>
        outcome := None;
    }

    /** `selectSuggestion`: the suggested key is added when it names a food. */
    method SelectSuggestion(foods: seq<string>, key: string) returns (outcome: Option<AddOutcome>)
      requires Valid()
      modifies this`board, this`order, this`hidden, this`knifeEnabled
      ensures outcome.Some? <==> key in foods
      ensures outcome.Some? ==> outcome.value == QuickAddOutcome(old(State()), key)
      ensures State() == if key in foods then QuickAdd(old(State()), key, GalleryItemInGrid(drags, key)) else old(State())
      ensures Valid()
    {
      if key in foods {
        var r := AddFoodByKey(key);
        outcome := Some(r);
      } else {
        outcome := None;
      }
    }
  }
}

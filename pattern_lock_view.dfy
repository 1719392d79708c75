/** The pattern-lock widget as the object it is: its fields are updated in
    place by the touch handler, by reset() and by assignment to the public
    stage field. Each method is proved to make the transition that module
    PatternMachine describes, so every lemma proved there holds of the
    object. */
module PatternLock {
  import opened PatternTypes
  import opened PatternMachine

  class PatternLockView {
    /** The active stage; public, assigned by the hosting screen. */
    var stageState: Stage
    var state: ViewState
    var markedDotList: seq<Dot>
    var stagePasswords: map<Stage, string>
    /** The states handed to the change listener, oldest first. */
    var notified: seq<ViewState>
    /** The success and error colours, fixed at construction. */
    const palette: Palette

    /** The object's state as a value. */
    ghost function Current(): Snapshot
      reads this
    {
      Snapshot(stageState, state, markedDotList, stagePasswords, notified)
    }

    ghost predicate Valid()
      reads this
    {
      Inv(Current(), palette)
    }

    constructor (palette: Palette)
      ensures Valid() && Current() == Fresh && this.palette == palette
    {
      stageState := First;
      state := Initial;
      markedDotList := [];
      stagePasswords := map[];
      notified := [];
      this.palette := palette;
    }

    /** Forget the gesture and show Initial; the clear action and the
        auto-reset timer both end here. */
    method Reset()
      modifies this`state, this`markedDotList
      ensures Valid()
      ensures Current() == PatternMachine.Reset(old(Current()))
    {
      markedDotList := [];
      state := Initial;
    }

    /** The hit test against the dot under the pointer, if any. */
    method IsTouchedDot(hit: Option<Dot>) returns (touched: bool)
      modifies this`markedDotList
      ensures (markedDotList, touched) == HitTest(old(markedDotList), hit)
    {
      touched := false;
      if hit.Some? && hit.value !in markedDotList {
        markedDotList := markedDotList + [hit.value];
        touched := true;
      }
    }

    /** ACTION_DOWN; the result is what onTouchEvent returns. */
    method PointerDown(hit: Option<Dot>) returns (handled: bool)
      requires Valid()
      modifies this
      ensures Valid()
      ensures (Current(), handled) == OnDown(old(Current()), hit)
    {
      if state.Success? {
        return false;
      }
      Reset();
      var touched := IsTouchedDot(hit);
      if touched {
        state := Started;
        notified := notified + [state];
      }
      handled := true;
    }

    /** ACTION_UP: store the key of a long enough pattern under the current
        stage and judge it. */
    method PointerUp()
      requires Valid()
      modifies this
      ensures Valid()
      ensures Current() == OnUp(old(Current()), palette)
    {
      if |markedDotList| != 0 && |markedDotList| >= MinCount {
        match stageState {
          case First =>
            stagePasswords := stagePasswords[First := DrawnPatternKey(markedDotList)];
            state := palette.SuccessState();
          case Second =>
            stagePasswords := stagePasswords[Second := DrawnPatternKey(markedDotList)];
            state :=
              if Get(stagePasswords, First) != Get(stagePasswords, Second)
              then palette.ErrorState()
              else palette.SuccessState();
        }
        notified := notified + [state];
      } else if |markedDotList| != 0 {
        state := palette.ErrorState();
        notified := notified + [state];
      }
    }

    /** ACTION_MOVE: acquire another dot during a gesture, below MaxCount. */
    method PointerMove(hit: Option<Dot>)
      requires Valid()
      modifies this
      ensures Valid()
      ensures Current() == OnMove(old(Current()), hit)
    {
      if state == Started && |markedDotList| != MaxCount {
        var _ := IsTouchedDot(hit);
      }
    }

    /** onTouchEvent. */
    method OnTouchEvent(event: MotionEvent) returns (handled: bool)
      requires Valid()
      modifies this
      ensures Valid()
      ensures (Current(), handled) == Handle(old(Current()), event, palette)
    {
      match event {
        case ActionDown(hit) =>
          handled := PointerDown(hit);
          return;
        case ActionUp =>
          PointerUp();
        case ActionMove(hit) =>
          PointerMove(hit);
        case ActionOther =>
      }
      handled := true;
    }
  }
}

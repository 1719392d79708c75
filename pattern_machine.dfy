/** The widget's state as one value, and the transitions its touch handler,
    its reset and its public stage field make on that value. The class in
    module PatternLock is proved to follow these functions; what the widget
    promises is proved here about them. */
module PatternMachine {
  import opened PatternTypes

  /** Everything the capture logic reads or writes: the stage, the view
      state, the marked dots in touch order, the stored key per stage, and
      the states handed to the change listener so far. */
  datatype Snapshot = Snapshot(
    stage: Stage,
    state: ViewState,
    marked: seq<Dot>,
    passwords: map<Stage, string>,
    notified: seq<ViewState>)

  /** A freshly constructed widget. */
  const Fresh: Snapshot := Snapshot(First, Initial, [], map[], [])

  /** The pointer actions the touch handler tells apart; `hit` is the dot the
      hit test finds under the pointer, if any. */
  datatype MotionEvent =
    | ActionDown(hit: Option<Dot>)
    | ActionUp
    | ActionMove(hit: Option<Dot>)
    | ActionOther

  /** The stored key of a stage, absent when none was stored. */
  function Get(passwords: map<Stage, string>, stage: Stage): Option<string>
  {
    if stage in passwords then Some(passwords[stage]) else None
  }

  /** reset(), as assumed: forget the gesture and go back to Initial. It
      tells no listener, and the stage and the stored keys stay. From any
      snapshot it re-establishes the invariant. */
  function Reset(s: Snapshot): (r: Snapshot)
    ensures r.state == Initial && r.marked == []
    ensures r.stage == s.stage && r.passwords == s.passwords && r.notified == s.notified
    ensures forall pal :: Inv(r, pal)
  {
    s.(state := Initial, marked := [])
  }

  /** The hit test: a dot under the pointer that is not yet marked is
      appended; the flag says whether that happened. */
  function HitTest(marked: seq<Dot>, hit: Option<Dot>): (r: (seq<Dot>, bool))
    ensures r.1 <==> hit.Some? && hit.value !in marked
    ensures r.0 == if r.1 then marked + [hit.value] else marked
  {
    match hit
    case Some(d) => if d in marked then (marked, false) else (marked + [d], true)
    case None => (marked, false)
  }

  /** ACTION_DOWN. The flag is what the handler returns. */
  function OnDown(s: Snapshot, hit: Option<Dot>): (r: (Snapshot, bool))
    // while Success the gesture is refused and nothing changes
    ensures s.state.Success? ==> r == (s, false)
    // otherwise the gesture is accepted; stage and stored keys stay
    ensures !s.state.Success? ==> r.1 && r.0.stage == s.stage && r.0.passwords == s.passwords
    // a hit starts a gesture with that one dot and reports Started once
    ensures !s.state.Success? && hit.Some? ==>
      r.0.state == Started && r.0.marked == [hit.value] && r.0.notified == s.notified + [Started]
    // a miss leaves the widget reset and reports nothing
    ensures !s.state.Success? && hit.None? ==>
      r.0.state == Initial && r.0.marked == [] && r.0.notified == s.notified
  {
    if s.state.Success? then (s, false)
    else
      var t := Reset(s);
      var (marked, touched) := HitTest(t.marked, hit);
      if touched then (t.(marked := marked, state := Started, notified := t.notified + [Started]), true)
      else (t.(marked := marked), true)
  }

  /** ACTION_MOVE: acquire another dot only during a gesture and below the
      maximum. */
  function OnMove(s: Snapshot, hit: Option<Dot>): (r: Snapshot)
    ensures r == s.(marked := r.marked)
    ensures r.marked == s.marked || (hit.Some? && r.marked == s.marked + [hit.value])
    ensures r.marked != s.marked <==>
      s.state == Started && |s.marked| != MaxCount && hit.Some? && hit.value !in s.marked
    ensures |s.marked| <= MaxCount ==> |r.marked| <= MaxCount
  {
    if s.state == Started && |s.marked| != MaxCount then s.(marked := HitTest(s.marked, hit).0)
    else s
  }

  /** ACTION_UP: judge the finished gesture. */
  function OnUp(s: Snapshot, pal: Palette): (r: Snapshot)
    ensures r.stage == s.stage && r.marked == s.marked
    // nothing marked: nothing happens
    ensures |s.marked| == 0 ==> r == s
    // too few dots: Error, keys untouched, reported once
    ensures 0 < |s.marked| < MinCount ==>
      r.state == pal.ErrorState() && r.passwords == s.passwords && r.notified == s.notified + [r.state]
    // enough dots in stage FIRST: store the key under FIRST and succeed
    ensures |s.marked| >= MinCount && s.stage == First ==>
      r.passwords == s.passwords[First := DrawnPatternKey(s.marked)] && r.state == pal.SuccessState()
    // enough dots in stage SECOND: store the key under SECOND and succeed
    // exactly when the key stored under FIRST is the same
    ensures |s.marked| >= MinCount && s.stage == Second ==>
      r.passwords == s.passwords[Second := DrawnPatternKey(s.marked)] &&
      r.state == (if Get(s.passwords, First) == Some(DrawnPatternKey(s.marked)) then pal.SuccessState() else pal.ErrorState())
    ensures |s.marked| >= MinCount ==> r.notified == s.notified + [r.state]
  {
    var n := |s.marked|;
    if n != 0 && n >= MinCount then
      var key := DrawnPatternKey(s.marked);
      var passwords :=
        match s.stage
        case First => s.passwords[First := key]
        case Second => s.passwords[Second := key];
      var state :=
        match s.stage
        case First => pal.SuccessState()
        case Second =>
          if Get(passwords, First) != Get(passwords, Second) then pal.ErrorState() else pal.SuccessState();
      s.(state := state, passwords := passwords, notified := s.notified + [state])
    else if n != 0 then
      s.(state := pal.ErrorState(), notified := s.notified + [pal.ErrorState()])
    else
      s
  }

  /** What the view holds between events: no dot twice, at most MaxCount
      dots, Initial exactly when nothing is marked, a Success pattern is the
      one stored under FIRST, and an Error with enough dots is a confirmation
      that did not match. */
  ghost predicate Inv(s: Snapshot, pal: Palette)
  {
    && NoDuplicates(s.marked)
    && |s.marked| <= MaxCount
    && (s.state == Initial <==> s.marked == [])
    && (s.state.Success? ==>
          s.state == pal.SuccessState() && |s.marked| >= MinCount &&
          Get(s.passwords, First) == Some(DrawnPatternKey(s.marked)))
    && (s.state.Error? ==> s.state == pal.ErrorState())
    && (s.state.Error? && |s.marked| >= MinCount ==>
          Get(s.passwords, Second) == Some(DrawnPatternKey(s.marked)) &&
          Get(s.passwords, First) != Some(DrawnPatternKey(s.marked)))
  }

  /** onTouchEvent: dispatch on the action. */
  function Handle(s: Snapshot, e: MotionEvent, pal: Palette): (r: (Snapshot, bool))
    // the handler never assigns the stage
    ensures r.0.stage == s.stage
    // only a pointer-down in Success is refused, and it changes nothing
    ensures r.1 <==> !(e.ActionDown? && s.state.Success?)
    ensures !r.1 ==> r.0 == s
    // the listener hears at most one state per event, the one now held
    ensures r.0.notified == s.notified || r.0.notified == s.notified + [r.0.state]
    // a state other than Initial that the handler sets is always reported
    ensures r.0.state != s.state && r.0.state != Initial ==> r.0.notified == s.notified + [r.0.state]
    ensures Inv(s, pal) ==> Inv(r.0, pal)
  {
    match e
    case ActionDown(hit) => OnDown(s, hit)
    case ActionUp => (OnUp(s, pal), true)
    case ActionMove(hit) => (OnMove(s, hit), true)
    case ActionOther => (s, true)
  }

  /** The inputs the widget sees: touch events, a call to reset() (the
      clear action, or the auto-reset timer finishing), and an assignment to
      the public stage field. */
  datatype Input =
    | Touch(event: MotionEvent)
    | ResetRequested
    | StageAssigned(stage: Stage)

  /** One input. Only an assignment changes the stage, a stage assignment
      changes nothing else, and every input keeps the invariant. */
  function Apply(s: Snapshot, i: Input, pal: Palette): (r: Snapshot)
    ensures r.stage == if i.StageAssigned? then i.stage else s.stage
    ensures i.StageAssigned? ==> r == s.(stage := i.stage)
    ensures i.ResetRequested? ==> r.state == Initial && r.marked == [] && r.notified == s.notified
    ensures Inv(s, pal) ==> Inv(r, pal)
  {
    match i
    case Touch(e) => Handle(s, e, pal).0
    case ResetRequested => Reset(s)
    case StageAssigned(stage) => s.(stage := stage)
  }

  /** The snapshot after the inputs, in order. */
  function Run(s: Snapshot, inputs: seq<Input>, pal: Palette): Snapshot
    decreases |inputs|
  {
    if inputs == [] then s else Run(Apply(s, inputs[0], pal), inputs[1..], pal)
  }

  /** The stage last assigned among the inputs, or `stage` if none is. */
  function LastStage(stage: Stage, inputs: seq<Input>): Stage
    decreases |inputs|
  {
    if inputs == [] then stage
    else LastStage(if inputs[0].StageAssigned? then inputs[0].stage else stage, inputs[1..])
  }

  lemma FreshInv(pal: Palette)
    ensures Inv(Fresh, pal)
  {
  }

  /** Any sequence of inputs keeps the invariant; in particular the marked
      count never exceeds MaxCount and no dot is marked twice. */
  lemma {:induction false} RunPreservesInv(s: Snapshot, inputs: seq<Input>, pal: Palette)
    requires Inv(s, pal)
    ensures Inv(Run(s, inputs, pal), pal)
    decreases |inputs|
  {
    if inputs != [] {
      RunPreservesInv(Apply(s, inputs[0], pal), inputs[1..], pal);
    }
  }

  /** Every state a widget reaches from construction satisfies Inv. */
  lemma {:induction false} ReachableInv(inputs: seq<Input>, pal: Palette)
    ensures Inv(Run(Fresh, inputs, pal), pal)
    ensures |Run(Fresh, inputs, pal).marked| <= MaxCount
  {
    FreshInv(pal);
    RunPreservesInv(Fresh, inputs, pal);
  }

  /** Because reset() is assumed to tell no listener and the handler never
      sets Initial itself, the listener never hears Initial. */
  lemma {:induction false} RunNeverReportsInitial(s: Snapshot, inputs: seq<Input>, pal: Palette)
    requires Initial !in s.notified
    ensures Initial !in Run(s, inputs, pal).notified
    decreases |inputs|
  {
    if inputs != [] {
      var s' := Apply(s, inputs[0], pal);
      assert Initial !in s'.notified by {
        if inputs[0].Touch? {
          var e := inputs[0].event;
          if e.ActionDown? && !s.state.Success? && e.hit.Some? {
            assert s'.notified == s.notified + [Started];
          } else if s'.notified != s.notified {
            assert s'.state != Initial;
          }
        }
      }
      RunNeverReportsInitial(s', inputs[1..], pal);
    }
  }

  /** The stage changes only by assignment to the public field: touches and
      resets never change it. */
  lemma {:induction false} RunStage(s: Snapshot, inputs: seq<Input>, pal: Palette)
    ensures Run(s, inputs, pal).stage == LastStage(s.stage, inputs)
    decreases |inputs|
  {
    if inputs != [] {
      RunStage(Apply(s, inputs[0], pal), inputs[1..], pal);
    }
  }

  lemma {:induction false} RunAppend(s: Snapshot, a: seq<Input>, b: seq<Input>, pal: Palette)
    ensures Run(s, a + b, pal) == Run(Run(s, a, pal), b, pal)
    decreases |a|
  {
    if a != [] {
      assert (a + b)[0] == a[0];
      assert (a + b)[1..] == a[1..] + b;
      RunAppend(Apply(s, a[0], pal), a[1..], b, pal);
    } else {
      assert a + b == b;
    }
  }

  /** The pointer-move events that pass over the given dots. */
  function Moves(dots: seq<Dot>): (r: seq<Input>)
    ensures |r| == |dots|
    ensures forall k :: 0 <= k < |dots| ==> r[k] == Touch(ActionMove(Some(dots[k])))
  {
    if dots == [] then [] else [Touch(ActionMove(Some(dots[0])))] + Moves(dots[1..])
  }

  /** One gesture over the given dots: down on the first, move over the rest,
      then up. */
  function Draw(pattern: seq<Dot>): seq<Input>
    requires pattern != []
  {
    [Touch(ActionDown(Some(pattern[0])))] + Moves(pattern[1..]) + [Touch(ActionUp)]
  }

  /** A pattern a user can draw in one gesture: some dots, none twice, at
      most MaxCount of them. */
  predicate Drawable(pattern: seq<Dot>)
  {
    pattern != [] && NoDuplicates(pattern) && |pattern| <= MaxCount
  }

  /** During a gesture each move over a new dot appends it. */
  lemma {:induction false} RunMoves(s: Snapshot, dots: seq<Dot>, pal: Palette)
    requires s.state == Started
    requires NoDuplicates(s.marked + dots) && |s.marked + dots| <= MaxCount
    ensures Run(s, Moves(dots), pal) == s.(marked := s.marked + dots)
    decreases |dots|
  {
    if dots != [] {
      var m := s.marked;
      assert dots[0] == (m + dots)[|m|];
      assert dots[0] !in m by {
        forall i | 0 <= i < |m| ensures m[i] != dots[0] {
          assert m[i] == (m + dots)[i];
        }
      }
      var s' := Apply(s, Touch(ActionMove(Some(dots[0]))), pal);
      assert s' == s.(marked := m + [dots[0]]);
      assert (m + [dots[0]]) + dots[1..] == m + dots;
      RunMoves(s', dots[1..], pal);
    }
  }

  /** Drawing a pattern while not in Success marks exactly that pattern,
      reports Started, and then judges it as ACTION_UP does. */
  lemma {:induction false} DrawJudgesPattern(s: Snapshot, pattern: seq<Dot>, pal: Palette)
    requires !s.state.Success?
    requires Drawable(pattern)
    ensures Run(s, Draw(pattern), pal) ==
      OnUp(s.(state := Started, marked := pattern, notified := s.notified + [Started]), pal)
  {
    var down := [Touch(ActionDown(Some(pattern[0])))];
    var moves := Moves(pattern[1..]);
    var up := [Touch(ActionUp)];
    var started := s.(state := Started, marked := [pattern[0]], notified := s.notified + [Started]);
    assert Run(s, down, pal) == started;
    assert [pattern[0]] + pattern[1..] == pattern;
    RunMoves(started, pattern[1..], pal);
    RunAppend(s, down + moves, up, pal);
    RunAppend(s, down, moves, pal);
  }

  /** A gesture over fewer than MinCount dots ends in Error and stores
      nothing. */
  lemma {:induction false} ShortPatternRejected(s: Snapshot, pattern: seq<Dot>, pal: Palette)
    requires !s.state.Success?
    requires Drawable(pattern) && |pattern| < MinCount
    ensures Run(s, Draw(pattern), pal).state == pal.ErrorState()
    ensures Run(s, Draw(pattern), pal).passwords == s.passwords
  {
    DrawJudgesPattern(s, pattern, pal);
  }

  /** The enter-then-confirm protocol as the hosting screen drives it: draw a
      pattern in stage FIRST, switch the stage to SECOND, reset, draw again.
      The first gesture always succeeds and stores its key; the confirmation
      succeeds exactly when the second pattern is the first one. */
  lemma {:induction false} EnterThenConfirm(first: seq<Dot>, second: seq<Dot>, pal: Palette)
    requires Drawable(first) && |first| >= MinCount
    requires Drawable(second) && |second| >= MinCount
    ensures Run(Fresh, Draw(first), pal).state == pal.SuccessState()
    ensures Get(Run(Fresh, Draw(first), pal).passwords, First) == Some(DrawnPatternKey(first))
    ensures Run(Fresh, Draw(first) + [StageAssigned(Second), ResetRequested] + Draw(second), pal).state ==
      if first == second then pal.SuccessState() else pal.ErrorState()
  {
    var entered := Run(Fresh, Draw(first), pal);
    DrawJudgesPattern(Fresh, first, pal);
    var switched := Run(entered, [StageAssigned(Second), ResetRequested], pal);
    assert switched == Snapshot(Second, Initial, [], entered.passwords, entered.notified);
    DrawJudgesPattern(switched, second, pal);
    RunAppend(Fresh, Draw(first), [StageAssigned(Second), ResetRequested], pal);
    RunAppend(Fresh, Draw(first) + [StageAssigned(Second), ResetRequested], Draw(second), pal);
    DrawnPatternKeyInjective(first, second);
  }

  /** Each event as a touch input, in order. */
  function Touches(events: seq<MotionEvent>): (r: seq<Input>)
    ensures |r| == |events|
    ensures forall k :: 0 <= k < |events| ==> r[k] == Touch(events[k])
  {
    if events == [] then [] else [Touch(events[0])] + Touches(events[1..])
  }

  /** Once Success, no touch changes the state or the marked pattern until
      something calls reset(). */
  lemma {:induction false} SuccessHoldsUntilReset(s: Snapshot, events: seq<MotionEvent>, pal: Palette)
    requires Inv(s, pal) && s.state.Success?
    ensures Run(s, Touches(events), pal).state == s.state
    ensures Run(s, Touches(events), pal).marked == s.marked
    decreases |events|
  {
    if events != [] {
      var s' := Apply(s, Touch(events[0]), pal);
      assert s'.state == s.state && s'.marked == s.marked;
      SuccessHoldsUntilReset(s', events[1..], pal);
    }
  }
}

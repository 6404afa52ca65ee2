/** The OpenMAX IL client as concurrent code: event handler calls, the two blocking
    waits and other removals, interleaved one locked section at a time. */
module IlProtocol {
  import opened IlEvents

  const NONE := -1

  datatype Comp = Comp(view: CompView, related: int)

  // Where a wait stands.  Looking, Trying, CheckingError, CheckingConfig and LastTry are
  // in front of a locked section, Blocking in front of the event-flag wait.
  datatype Pc =
    | Idle
    | Looking | Trying | CheckingError | CheckingConfig | LastTry
    | Blocking
    | Leaving(ret: int)
    | Returned(ret: int)

  datatype Call =
    | NoCall
    | CommandCall(command: Data, param: Data, other: int)
    | EventCall(pattern: Pattern, flags: set<Flag>)

  // removed is what this very call has taken off the list.
  datatype Waiter = Waiter(pc: Pc, call: Call, removed: seq<Event>)

  const IDLE := Waiter(Idle, NoCall, [])

  // waiters[c] is the one thread that may be waiting on component c.
  datatype State = State(comps: seq<Comp>, waiters: seq<Waiter>)

  datatype Step =
    | Deliver(c: nat, e: EventType, d1: Data, d2: Data, data: nat, room: bool)
    | BeginCommand(c: nat, command: Data, param: Data, other: int)
    | BeginEvent(c: nat, pattern: Pattern, flags: set<Flag>)
    | Advance(c: nat)
    | TimeOut(c: nat)
    | Retire(c: nat)
    | RemoveElsewhere(c: nat, pattern: Pattern)
    | ReturnAll(c: nat)
    | SetErrorMask(c: nat, bits: set<ErrorMaskBit>)

  predicate IsOver(w: Waiter) {
    w.pc.Idle? || w.pc.Returned? || w.call.NoCall?
  }

  function MaskOf(w: Waiter): set<Flag> {
    match w.call
    case NoCall => {}
    case CommandCall(command, _, _) => CommandMask(command)
    case EventCall(_, flags) => flags
  }

  /** A command wait that has set other->related and not yet cleared it. */
  predicate Watches(w: Waiter, o: int) {
    w.call.CommandCall? && !w.pc.Returned? && w.call.other == o
  }

  predicate WellSized(s: State) {
    |s.waiters| == |s.comps|
  }

  // ---- What a wait must not miss ----

  /** The events a wait has already looked for in vain, so that their arrival must wake it. */
  predicate Wanted(w: Waiter, ev: Event) {
    match w.call
    case NoCall => false
    case CommandCall(command, param, _) => w.pc.Blocking? && Matches(Completes(command, param), ev)
    case EventCall(pattern, flags) =>
      || ((w.pc.CheckingError? || w.pc.CheckingConfig? || w.pc.Blocking?) && Matches(pattern, ev))
      || ((w.pc.CheckingConfig? || w.pc.Blocking?) && EventError in flags && ev.eEvent == Error)
      || (w.pc.Blocking? && ConfigChanged in flags && ev.eEvent == ParamOrConfigChanged)
  }

  /** Those of them that have a flag in the wait's mask. */
  predicate Stirs(w: Waiter, ev: Event) {
    Wanted(w, ev) && !(FlagsFor(ev) !! MaskOf(w))
  }

  /** A command wait is blocked, or about to, and a command has failed on the watched component. */
  predicate FailedElsewhere(s: State, c: nat)
    requires WellSized(s) && c < |s.comps|
  {
    var w := s.waiters[c];
    w.call.CommandCall? && w.pc.Blocking? && 0 <= w.call.other < |s.comps|
      && Present(EndsCommand, s.comps[w.call.other].view.events)
  }

  /** After the removal one of the wait's flags is up, or there is nothing to wake it for; or
      the removal takes down none of its flags. */
  predicate RemovalIsHarmless(s: State, c: nat, p: Pattern)
    requires WellSized(s) && c < |s.comps| && p.Exact?
  {
    var (found, v') := Removed(s.comps[c].view, p);
    var w := s.waiters[c];
    || !found
    || ConsumedByRemoval(p.eEvent) !! MaskOf(w)
    || !(v'.flags !! MaskOf(w))
    || ((forall j :: 0 <= j < |v'.events| ==> !Stirs(w, v'.events[j])) && !FailedElsewhere(WithView(s, c, v'), c))
  }

  function WithView(s: State, c: nat, v: CompView): (r: State)
    requires WellSized(s) && c < |s.comps|
    ensures WellSized(r) && |r.comps| == |s.comps|
  {
    s.(comps := s.comps[c := s.comps[c].(view := v)])
  }

  // ---- Steps ----

  /** What a step asks of its caller.  Another thread may remove events of a component
      somebody waits on, as long as that leaves the wait nothing to miss; and a second
      component is watched by one wait at a time. */
  predicate Enabled(s: State, step: Step)
    requires WellSized(s)
  {
    && step.c < |s.comps|
    && var w, flags := s.waiters[step.c], s.comps[step.c].view.flags;
       match step
       case Deliver(_, _, _, _, _, _) => true
       case BeginCommand(_, _, _, other) =>
         w.pc.Idle? && (other == NONE || (0 <= other < |s.comps| && s.comps[other].related == NONE))
       case BeginEvent(_, pattern, _) => w.pc.Idle? && pattern.Exact?
       case Advance(_) => !IsOver(w) && (w.pc.Blocking? ==> !(flags !! MaskOf(w)))
       case TimeOut(_) => w.call.EventCall? && w.pc.Blocking? && flags !! MaskOf(w)
       case Retire(_) => w.pc.Returned?
       case RemoveElsewhere(_, pattern) => pattern.Exact? && RemovalIsHarmless(s, step.c, pattern)
       case ReturnAll(_) => true
       case SetErrorMask(_, _) => true
  }

  function Delivered(comps: seq<Comp>, c: nat, e: EventType, d1: Data, d2: Data, data: nat, room: bool): (r: seq<Comp>)
    requires c < |comps|
    ensures |r| == |comps|
  {
    var o := comps[c].related;
    var r := comps[c := comps[c].(view := Handled(comps[c].view, e, d1, d2, data, room))];
    if 0 <= o < |comps| then r[o := r[o].(view := r[o].view.(flags := r[o].view.flags + Forwarded(e, d2)))] else r
  }

  /** The event a removal takes, as a sequence of at most one. */
  function Taken(s: seq<Event>, p: Pattern): seq<Event> {
    var k := FirstMatch(p, s);
    if k < |s| then [s[k]] else []
  }

  /** One locked section, or one return from the flag wait, of ilclient_wait_for_command_complete_dual. */
  function CommandAdvanced(v: CompView, others: seq<Event>, w: Waiter): (CompView, Waiter)
    requires w.call.CommandCall?
  {
    match w.pc
    case Blocking => (v.(flags := v.flags - MaskOf(w)), w.(pc := Looking))
    case Leaving(ret) => (v, w.(pc := Returned(ret)))
    case _ =>
      var (verdict, v') := CommandPass(v, others, w.call.command, w.call.param);
      match verdict
      case Finished(ret) =>
        (v', w.(pc := Leaving(ret), removed := w.removed + Taken(v.events, Completes(w.call.command, w.call.param))))
      case KeepWaiting => (v', w.(pc := Blocking))
  }

  /** The same for ilclient_wait_for_event. */
  function EventAdvanced(v: CompView, w: Waiter): (CompView, Waiter)
    requires w.call.EventCall?
  {
    var mask := w.call.flags;
    match w.pc
    case CheckingError =>
      if EventError in mask && FirstMatch(OfType(Error), v.events) < |v.events|
      then (v.(flags := v.flags - {EventError}), w.(pc := Returned(-2)))
      else (v, w.(pc := CheckingConfig))
    case CheckingConfig =>
      if ConfigChanged in mask && FirstMatch(OfType(ParamOrConfigChanged), v.events) < |v.events|
      then (v, w.(pc := LastTry))
      else (v, w.(pc := Blocking))
    case Blocking =>
      var got := v.flags * mask;
      (v.(flags := v.flags - mask),
       w.(pc := if EventError in got then Returned(-2) else if ConfigChanged in got then LastTry else Trying))
    case _ =>
      var (found, v') := Removed(v, w.call.pattern);
      if found then (v', w.(pc := Returned(0), removed := w.removed + Taken(v.events, w.call.pattern)))
      else (v', w.(pc := if w.pc.LastTry? then Returned(-3) else CheckingError))
  }

  /** The list of the component a command wait watches. */
  function Others(s: State, w: Waiter): seq<Event> {
    if w.call.CommandCall? && 0 <= w.call.other < |s.comps| then s.comps[w.call.other].view.events else []
  }

  function Advanced(s: State, c: nat): (r: State)
    requires WellSized(s) && c < |s.comps| && !IsOver(s.waiters[c])
    ensures WellSized(r) && |r.comps| == |s.comps|
  {
    var w, v := s.waiters[c], s.comps[c].view;
    if w.call.EventCall? then
      var (v', w') := EventAdvanced(v, w);
      State(s.comps[c := s.comps[c].(view := v')], s.waiters[c := w'])
    else
      var o := w.call.other;
      var (v', w') := CommandAdvanced(v, Others(s, w), w);
      var comps := s.comps[c := s.comps[c].(view := v')];
      State(if w'.pc.Returned? && 0 <= o < |comps| then comps[o := comps[o].(related := NONE)] else comps,
            s.waiters[c := w'])
  }

  function WithWaiter(s: State, c: nat, w: Waiter): (r: State)
    requires WellSized(s) && c < |s.comps|
    ensures WellSized(r) && |r.comps| == |s.comps|
  {
    s.(waiters := s.waiters[c := w])
  }

  function WithRelated(s: State, o: nat, r: int): (s': State)
    requires WellSized(s) && o < |s.comps|
    ensures WellSized(s') && |s'.comps| == |s.comps|
  {
    s.(comps := s.comps[o := s.comps[o].(related := r)])
  }

  /** A command wait begins; it does not look whether another wait has set related. */
  function Begun(s: State, c: nat, command: Data, param: Data, other: int): (r: State)
    requires WellSized(s) && c < |s.comps| && NONE <= other < |s.comps|
    ensures WellSized(r) && |r.comps| == |s.comps|
  {
    var call := CommandCall(command, param, other);
    if !Supported(command) then WithWaiter(s, c, Waiter(Returned(-1), call, []))
    else WithWaiter(if other == NONE then s else WithRelated(s, other, c), c, Waiter(Looking, call, []))
  }

  function Next(s: State, step: Step): (r: State)
    requires WellSized(s) && Enabled(s, step)
    ensures WellSized(r) && |r.comps| == |s.comps|
  {
    var c := step.c;
    var v, w := s.comps[c].view, s.waiters[c];
    match step
    case Deliver(_, e, d1, d2, data, room) => s.(comps := Delivered(s.comps, c, e, d1, d2, data, room))
    case BeginCommand(_, command, param, other) => Begun(s, c, command, param, other)
    case BeginEvent(_, pattern, flags) => WithWaiter(s, c, Waiter(Trying, EventCall(pattern, flags), []))
    case Advance(_) => Advanced(s, c)
    case TimeOut(_) => WithWaiter(s, c, w.(pc := Returned(-1)))
    case Retire(_) => WithWaiter(s, c, IDLE)
    case RemoveElsewhere(_, pattern) => WithView(s, c, Removed(v, pattern).1)
    case ReturnAll(_) => WithView(s, c, v.(events := []))
    case SetErrorMask(_, bits) => WithView(s, c, v.(mask := bits))
  }

  // ---- The invariant ----

  /** Any such event has left one of the mask's flags up. */
  ghost predicate Awake(v: CompView, w: Waiter) {
    forall ev :: ev in v.events && Stirs(w, ev) ==> !(v.flags !! MaskOf(w))
  }

  /** The same for a command that failed on the watched component. */
  ghost predicate AwakeForOther(s: State, c: nat)
    requires WellSized(s) && c < |s.comps|
  {
    FailedElsewhere(s, c) ==> !(s.comps[c].view.flags !! MaskOf(s.waiters[c]))
  }

  /** What a wait has removed, by where it stands. */
  predicate KeepsContract(w: Waiter) {
    match w.call
    case NoCall => w.pc.Idle?
    case CommandCall(command, param, _) =>
      if w.pc.Leaving? || w.pc.Returned? then
        if !Supported(command) then w.removed == [] && w.pc.ret == -1
        else
          || (w.removed == [] && w.pc.ret == -2)
          || (&& |w.removed| == 1
              && Matches(Completes(command, param), w.removed[0])
              && w.pc.ret == if CountsAsSuccess(w.removed[0]) then 0 else -1)
      else w.removed == [] && (w.pc.Looking? || w.pc.Blocking?) && Supported(command)
    case EventCall(pattern, _) =>
      && pattern.Exact?
      && !w.pc.Idle? && !w.pc.Leaving? && !w.pc.Looking?
      && (w.pc.LastTry? ==> ConfigChanged in w.call.flags)
      && if w.pc.Returned? && w.pc.ret == 0 then |w.removed| == 1 && Matches(pattern, w.removed[0])
         else w.removed == [] && (w.pc.Returned? ==> -3 <= w.pc.ret <= -1)
  }

  /** related points back exactly at the wait that set it. */
  ghost predicate RelatedOk(s: State, c: nat)
    requires WellSized(s) && c < |s.comps|
  {
    var w := s.waiters[c];
    && (w.call.CommandCall? && !w.pc.Returned? ==> w.call.other == NONE || 0 <= w.call.other < |s.comps|)
    && (forall o :: 0 <= o < |s.comps| ==> (Watches(w, o) <==> s.comps[o].related == c))
  }

  ghost predicate WaiterOk(s: State, c: nat)
    requires WellSized(s) && c < |s.comps|
  {
    && Awake(s.comps[c].view, s.waiters[c])
    && AwakeForOther(s, c)
    && KeepsContract(s.waiters[c])
    && RelatedOk(s, c)
  }

  ghost predicate Inv(s: State) {
    && WellSized(s)
    && (forall c :: 0 <= c < |s.comps| ==> WaiterOk(s, c))
    && (forall c :: 0 <= c < |s.comps| ==> TailDistinct(s.comps[c].view.events))
    && (forall c :: 0 <= c < |s.comps| ==> NONE <= s.comps[c].related < |s.comps|)
  }

  // ---- Every step keeps the invariant ----

  lemma TakenMatches(s: seq<Event>, p: Pattern)
    ensures FirstMatch(p, s) < |s| ==> Taken(s, p) == [s[FirstMatch(p, s)]] && Matches(p, Taken(s, p)[0])
    ensures FirstMatch(p, s) == |s| ==> forall ev :: ev in s ==> !Matches(p, ev)
  {
  }

  /** A handler call wakes the waits on its component that want the event. */
  lemma HandledAwake(v: CompView, w: Waiter, e: EventType, d1: Data, d2: Data, data: nat, room: bool)
    requires Awake(v, w)
    ensures Awake(Handled(v, e, d1, d2, data, room), w)
  {
    var v' := Handled(v, e, d1, d2, data, room);
    DedupSound(v.events);
    forall ev | ev in v'.events && Stirs(w, ev)
      ensures !(v'.flags !! MaskOf(w))
    {
      if ev in v.events {
        var f :| f in v.flags && f in MaskOf(w);
        assert f in v'.flags;
      } else {
        QueuedIsAnnounced(e, d1, d2, data, v.mask);
        var f :| f in FlagsFor(ev) && f in MaskOf(w);
        assert f in v'.flags;
      }
    }
  }

  lemma DeliverKeepsInv(s: State, step: Step)
    requires Inv(s) && step.Deliver? && Enabled(s, step)
    ensures Inv(Next(s, step))
  {
    var d, v := step.c, s.comps[step.c].view;
    var s' := Next(s, step);
    HandlerEstablishesTailDistinct(v, step.e, step.d1, step.d2, step.data, step.room);
    forall c | 0 <= c < |s.comps|
      ensures WaiterOk(s', c)
    {
      var w := s.waiters[c];
      assert WaiterOk(s, c);
      if c == d {
        HandledAwake(v, w, step.e, step.d1, step.d2, step.data, step.room);
      }
      assert Awake(s'.comps[c].view, w);
      if FailedElsewhere(s', c) {
        assert Watches(w, w.call.other);
        if w.call.other == d {
          HandledPresent(v, step.e, step.d1, step.d2, step.data, step.room, EndsCommand);
        }
        FailedAwake(s, step, c);
      }
    }
  }

  /** The wait on c that watches a failed component has a flag up: from before, or forwarded now. */
  lemma FailedAwake(s: State, step: Step, c: nat)
    requires Inv(s) && step.Deliver? && Enabled(s, step) && c < |s.comps|
    requires FailedElsewhere(s, c) || (Forwarded(step.e, step.d2) == {EventError} && s.comps[step.c].related == c)
    requires s.waiters[c].call.CommandCall?
    ensures !(Next(s, step).comps[c].view.flags !! MaskOf(s.waiters[c]))
  {
    assert WaiterOk(s, c);
    var v, v' := s.comps[c].view, Next(s, step).comps[c].view;
    assert v.flags <= v'.flags;
    if FailedElsewhere(s, c) {
      var f :| f in v.flags && f in MaskOf(s.waiters[c]);
      assert f in v'.flags;
    } else {
      assert EventError in v'.flags && EventError in MaskOf(s.waiters[c]);
    }
  }

  lemma RemovalKeepsAwake(s: State, d: nat, p: Pattern)
    requires Inv(s) && d < |s.comps| && p.Exact? && RemovalIsHarmless(s, d, p)
    ensures var v' := Removed(s.comps[d].view, p).1;
            Awake(v', s.waiters[d]) && AwakeForOther(WithView(s, d, v'), d)
  {
    var v, w := s.comps[d].view, s.waiters[d];
    var (found, v') := Removed(v, p);
    assert WaiterOk(s, d);
    if !found {
      assert WithView(s, d, v') == s;
    } else if v'.flags !! MaskOf(w) && ConsumedByRemoval(p.eEvent) !! MaskOf(w) {
      assert v.flags !! MaskOf(w);
      if FailedElsewhere(WithView(s, d, v'), d) {
        PresentOnlyIfBefore(EndsCommand, v.events, v'.events);
        assert FailedElsewhere(s, d);
      }
    }
  }

  /** A step that changes one component's view and the wait on it keeps the invariant when
      that wait is again awake, and nothing about related or ending errors is new. */
  lemma LocalChangeKeepsInv(s: State, d: nat, v: CompView, w: Waiter)
    requires Inv(s) && d < |s.comps|
    requires Awake(v, w) && KeepsContract(w) && TailDistinct(v.events)
    requires Present(EndsCommand, v.events) ==> Present(EndsCommand, s.comps[d].view.events)
    requires FailedElsewhere(WithWaiter(WithView(s, d, v), d, w), d) ==> !(v.flags !! MaskOf(w))
    requires forall o :: 0 <= o < |s.comps| ==> (Watches(w, o) <==> Watches(s.waiters[d], o))
    requires w.call.CommandCall? && !w.pc.Returned? ==> w.call.other == NONE || 0 <= w.call.other < |s.comps|
    ensures Inv(WithWaiter(WithView(s, d, v), d, w))
  {
    var s' := WithWaiter(WithView(s, d, v), d, w);
    forall c | 0 <= c < |s.comps|
      ensures WaiterOk(s', c)
    {
      assert WaiterOk(s, c);
    }
  }

  lemma RemoveElsewhereKeepsInv(s: State, step: Step)
    requires Inv(s) && step.RemoveElsewhere? && Enabled(s, step)
    ensures Inv(Next(s, step))
  {
    var d, v := step.c, s.comps[step.c].view;
    assert WaiterOk(s, d);
    RemovalKeepsAwake(s, d, step.pattern);
    var k := FirstMatch(step.pattern, v.events);
    if k < |v.events| {
      TailDistinctAfterRemoval(v.events, k);
    }
    var v' := Removed(v, step.pattern).1;
    assert WithWaiter(WithView(s, d, v'), d, s.waiters[d]) == WithView(s, d, v');
    PresentOnlyIfBefore(EndsCommand, v.events, v'.events);
    LocalChangeKeepsInv(s, d, Removed(v, step.pattern).1, s.waiters[d]);
    assert Next(s, step) == WithWaiter(WithView(s, d, Removed(v, step.pattern).1), d, s.waiters[d]);
  }

  ghost predicate ViewOk(v: CompView, w: Waiter) {
    Awake(v, w) && KeepsContract(w) && TailDistinct(v.events)
  }

  lemma EventTriedOk(v: CompView, w: Waiter)
    requires w.call.EventCall? && (w.pc.Trying? || w.pc.LastTry?) && ViewOk(v, w)
    ensures var (v', w') := EventAdvanced(v, w);
            ViewOk(v', w') && forall ev :: ev in v'.events ==> ev in v.events
  {
    TakenMatches(v.events, w.call.pattern);
    var k := FirstMatch(w.call.pattern, v.events);
    if k < |v.events| {
      TailDistinctAfterRemoval(v.events, k);
    }
  }

  lemma EventCheckedOk(v: CompView, w: Waiter)
    requires w.call.EventCall? && (w.pc.CheckingError? || w.pc.CheckingConfig?) && ViewOk(v, w)
    ensures var (v', w') := EventAdvanced(v, w);
            ViewOk(v', w') && v'.events == v.events
  {
    TakenMatches(v.events, OfType(Error));
    TakenMatches(v.events, OfType(ParamOrConfigChanged));
  }

  lemma EventAdvancedOk(v: CompView, w: Waiter)
    requires w.call.EventCall? && !IsOver(w) && ViewOk(v, w)
    ensures var (v', w') := EventAdvanced(v, w);
            ViewOk(v', w') && forall ev :: ev in v'.events ==> ev in v.events
  {
    if w.pc.Trying? || w.pc.LastTry? {
      EventTriedOk(v, w);
    } else if w.pc.CheckingError? || w.pc.CheckingConfig? {
      EventCheckedOk(v, w);
    }
  }

  lemma EventAdvanceKeepsInv(s: State, d: nat)
    requires Inv(s) && Enabled(s, Advance(d)) && s.waiters[d].call.EventCall?
    ensures Inv(Next(s, Advance(d)))
  {
    var v, w := s.comps[d].view, s.waiters[d];
    assert WaiterOk(s, d);
    var (v', w') := EventAdvanced(v, w);
    EventAdvancedOk(v, w);
    PresentOnlyIfBefore(EndsCommand, v.events, v'.events);
    LocalChangeKeepsInv(s, d, v', w');
    assert Next(s, Advance(d)) == WithWaiter(WithView(s, d, v'), d, w');
  }

  lemma CommandAdvancedOk(v: CompView, others: seq<Event>, w: Waiter)
    requires w.call.CommandCall? && (w.pc.Looking? || w.pc.Blocking?) && ViewOk(v, w)
    ensures var (v', w') := CommandAdvanced(v, others, w);
            && ViewOk(v', w') && !w'.pc.Returned?
            && (w'.pc.Blocking? ==> !Present(EndsCommand, others))
            && forall ev :: ev in v'.events ==> ev in v.events
  {
    var p := Completes(w.call.command, w.call.param);
    TakenMatches(v.events, p);
    TakenMatches(others, EndsCommand);
    var k := FirstMatch(p, v.events);
    if k < |v.events| {
      TailDistinctAfterRemoval(v.events, k);
    }
  }

  lemma PresentOnlyIfBefore(p: Pattern, s: seq<Event>, s': seq<Event>)
    requires forall ev :: ev in s' ==> ev in s
    ensures Present(p, s') ==> Present(p, s)
  {
    if Present(p, s') {
      var j :| 0 <= j < |s'| && Matches(p, s'[j]);
      assert s'[j] in s;
    }
  }

  lemma CommandAdvanceKeepsInv(s: State, d: nat)
    requires Inv(s) && Enabled(s, Advance(d)) && s.waiters[d].call.CommandCall? && !s.waiters[d].pc.Leaving?
    ensures Inv(Next(s, Advance(d)))
  {
    var v, w := s.comps[d].view, s.waiters[d];
    assert WaiterOk(s, d);
    var (v', w') := CommandAdvanced(v, Others(s, w), w);
    CommandAdvancedOk(v, Others(s, w), w);
    PresentOnlyIfBefore(EndsCommand, v.events, v'.events);
    LocalChangeKeepsInv(s, d, v', w');
    assert Next(s, Advance(d)) == WithWaiter(WithView(s, d, v'), d, w');
  }

  /** The last thing a command wait does is to clear related. */
  lemma LeavingKeepsInv(s: State, d: nat)
    requires Inv(s) && Enabled(s, Advance(d)) && s.waiters[d].pc.Leaving?
    ensures Inv(Next(s, Advance(d)))
    ensures forall o :: 0 <= o < |s.comps| ==> Next(s, Advance(d)).comps[o].related != d
  {
    assert WaiterOk(s, d);
    var s' := Next(s, Advance(d));
    forall c | 0 <= c < |s.comps|
      ensures WaiterOk(s', c)
    {
      assert WaiterOk(s, c);
    }
  }

  lemma BeginCommandKeepsInv(s: State, step: Step)
    requires Inv(s) && step.BeginCommand? && Enabled(s, step)
    ensures Inv(Next(s, step))
  {
    var s' := Next(s, step);
    assert WaiterOk(s, step.c);
    forall c | 0 <= c < |s.comps|
      ensures WaiterOk(s', c)
    {
      assert WaiterOk(s, c);
    }
  }

  lemma OtherStepsKeepInv(s: State, step: Step)
    requires Inv(s) && Enabled(s, step)
    requires step.BeginEvent? || step.TimeOut? || step.Retire? || step.ReturnAll? || step.SetErrorMask?
    ensures Inv(Next(s, step))
  {
    var c := step.c;
    var v, w := s.comps[c].view, s.waiters[c];
    assert WaiterOk(s, c);
    var v', w' := Next(s, step).comps[c].view, Next(s, step).waiters[c];
    LocalChangeKeepsInv(s, c, v', w');
    assert Next(s, step) == WithWaiter(WithView(s, c, v'), c, w');
  }

  lemma StepKeepsInv(s: State, step: Step)
    requires Inv(s) && Enabled(s, step)
    ensures Inv(Next(s, step))
  {
    match step
    case Deliver(_, _, _, _, _, _) => DeliverKeepsInv(s, step);
    case BeginCommand(_, _, _, _) => BeginCommandKeepsInv(s, step);
    case RemoveElsewhere(_, _) => RemoveElsewhereKeepsInv(s, step);
    case Advance(c) =>
      assert WaiterOk(s, c);
      if s.waiters[c].call.EventCall? {
        EventAdvanceKeepsInv(s, c);
      } else if s.waiters[c].pc.Leaving? {
        LeavingKeepsInv(s, c);
      } else {
        CommandAdvanceKeepsInv(s, c);
      }
    case _ => OtherStepsKeepInv(s, step);
  }

  // ---- Whole runs ----

  /** n components as ilclient_create_component leaves them, nobody waiting. */
  function Initial(n: nat): State {
    State(seq(n, _ => Comp(CompView([], {}, {}), NONE)), seq(n, _ => IDLE))
  }

  /** The states of a run in which every step is enabled, its end in particular. */
  ghost predicate IsRun(s: State, steps: seq<Step>, end: State)
    decreases |steps|
  {
    if steps == [] then s == end
    else WellSized(s) && Enabled(s, steps[0]) && IsRun(Next(s, steps[0]), steps[1..], end)
  }

  lemma {:induction false} RunKeepsInv(s: State, steps: seq<Step>, end: State)
    requires Inv(s) && IsRun(s, steps, end)
    ensures Inv(end)
    decreases |steps|
  {
    if steps != [] {
      StepKeepsInv(s, steps[0]);
      RunKeepsInv(Next(s, steps[0]), steps[1..], end);
    }
  }

  lemma ReachableInv(n: nat, steps: seq<Step>, end: State)
    requires IsRun(Initial(n), steps, end)
    ensures Inv(end)
  {
    RunKeepsInv(Initial(n), steps, end);
  }

  /** The two kinds of error that the handler queues without raising a flag. */
  predicate IsSilent(ev: Event) {
    ev.eEvent == Error && (ev.nData1 == ERROR_DISK_FULL || ev.nData1 == ERROR_MAX_FILE_SIZE)
  }

  /** No lost wake-up: in every run, a command wait that is asleep on its flags has no
      completion and no failure to miss.  The one exception is a silent error in its own
      list. */
  lemma NoLostWakeup(n: nat, steps: seq<Step>, s: State, c: nat)
    requires IsRun(Initial(n), steps, s) && c < |s.comps| == |s.waiters|
    requires s.waiters[c].pc.Blocking? && s.waiters[c].call.CommandCall?
    requires s.comps[c].view.flags !! MaskOf(s.waiters[c])
    ensures var call := s.waiters[c].call;
            && (forall ev :: ev in s.comps[c].view.events && Matches(Completes(call.command, call.param), ev) ==>
                  IsSilent(ev))
            && (0 <= call.other < |s.comps| ==> !Present(EndsCommand, s.comps[call.other].view.events))
  {
    ReachableInv(n, steps, s);
    assert WaiterOk(s, c);
    var call := s.waiters[c].call;
    forall ev | ev in s.comps[c].view.events && Matches(Completes(call.command, call.param), ev)
      ensures IsSilent(ev)
    {
      assert Wanted(s.waiters[c], ev);
      CompletionIsFlagged(call.command, call.param, ev);
    }
  }

  /** What can end a supported command announces itself by a flag of the wait's mask. */
  lemma CompletionIsFlagged(command: Data, param: Data, ev: Event)
    requires Supported(command) && Matches(Completes(command, param), ev)
    ensures FlagsFor(ev) !! CommandMask(command) <==> IsSilent(ev)
  {
    if ev.eEvent == CmdComplete {
      var f := if command == COMMAND_STATE_SET then StateChanged
               else if command == COMMAND_PORT_DISABLE then PortDisabled else PortEnabled;
      assert f in FlagsFor(ev) && f in CommandMask(command);
    } else if !IsSilent(ev) {
      assert EventError in FlagsFor(ev) && EventError in CommandMask(command);
    }
  }

  // ---- What is missed otherwise ----

  /** The exception is real: such an error ends the command and the wait sleeps on. */
  lemma SilentErrorIsMissed(s: State, c: nat, d1: Data, data: nat, room: bool)
    requires Inv(s) && c < |s.comps| && s.waiters[c].pc.Blocking? && s.waiters[c].call.CommandCall?
    requires s.comps[c].view.flags !! MaskOf(s.waiters[c]) && s.comps[c].related != c
    requires !Present(EndsCommand, s.comps[c].view.events)
    ensures var s' := Next(s, Deliver(c, Error, d1, 1, data, room));
            && (room && (d1 == ERROR_DISK_FULL || d1 == ERROR_MAX_FILE_SIZE) <==>
                  && Present(EndsCommand, s'.comps[c].view.events)
                  && s'.comps[c].view.flags !! MaskOf(s'.waiters[c]))
  {
    assert WaiterOk(s, c);
    var s' := Next(s, Deliver(c, Error, d1, 1, data, room));
    var v, v' := s.comps[c].view, s'.comps[c].view;
    HandledPresent(v, Error, d1, 1, data, room, EndsCommand);
    if !Masked(Error, d1, v.mask) && d1 != ERROR_DISK_FULL && d1 != ERROR_MAX_FILE_SIZE {
      assert EventError in v'.flags && EventError in MaskOf(s'.waiters[c]);
    }
  }

  /** Why a component is watched by one wait at a time: its failure wakes a wait exactly when
      related names that wait's component at the time, and not if another wait has
      overwritten it or cleared it on its way out. */
  lemma OverwrittenRelatedIsMissed(s: State, c: nat, r: int, d1: Data, data: nat, room: bool)
    requires Inv(s) && c < |s.comps| && NONE <= r < |s.comps|
    requires s.waiters[c].pc.Blocking? && s.waiters[c].call.CommandCall?
    requires s.comps[c].view.flags !! MaskOf(s.waiters[c])
    requires 0 <= s.waiters[c].call.other < |s.comps| && s.waiters[c].call.other != c
    ensures var o := s.waiters[c].call.other;
            var s' := Next(WithRelated(s, o, r), Deliver(o, Error, d1, 1, data, room));
            && s'.waiters[c] == s.waiters[c]
            && (!(s'.comps[c].view.flags !! MaskOf(s.waiters[c])) <==> r == c)
            && (room && !Masked(Error, d1, s.comps[o].view.mask) ==> Present(EndsCommand, s'.comps[o].view.events))
  {
    var o := s.waiters[c].call.other;
    var s' := Next(WithRelated(s, o, r), Deliver(o, Error, d1, 1, data, room));
    HandledPresent(s.comps[o].view, Error, d1, 1, data, room, EndsCommand);
    if r == c {
      assert EventError in s'.comps[c].view.flags && EventError in MaskOf(s.waiters[c]);
    }
  }

  /** Everything left on a list that could complete the command is a silent error. */
  ghost predicate OnlySilentLeft(call: Call, events: seq<Event>)
    requires call.CommandCall?
  {
    forall ev :: ev in events && Matches(Completes(call.command, call.param), ev) ==> IsSilent(ev)
  }

  /** The wait's own list, once an error has been removed from it. */
  lemma RemovedErrorOwnList(v: CompView, w: Waiter, p: Pattern)
    requires w.call.CommandCall? && Supported(w.call.command) && w.pc.Blocking?
    requires p.Exact? && p.eEvent == Error && Present(p, v.events)
    ensures var v' := Removed(v, p).1;
            && (v'.flags !! MaskOf(w) <==> forall f :: f in v.flags && f in MaskOf(w) ==> f == EventError)
            && (Awake(v', w) <==> !(v'.flags !! MaskOf(w)) || OnlySilentLeft(w.call, v'.events))
  {
    var v' := Removed(v, p).1;
    var k := FirstMatch(p, v.events);
    assert k < |v.events| && v'.flags == v.flags - {EventError};
    forall ev | Matches(Completes(w.call.command, w.call.param), ev)
      ensures Stirs(w, ev) <==> !IsSilent(ev)
    {
      CompletionIsFlagged(w.call.command, w.call.param, ev);
    }
  }

  /** Removing an error from under a sleeping command wait takes its flag down, also when the
      flag stands for another error or for a failure of the watched component.  The wait
      misses nothing exactly when another of its flags is up, or when only silent errors are
      left on its own list that could complete the command and no failure is on the watched
      one. */
  lemma RemovedErrorIsMissed(s: State, c: nat, p: Pattern)
    requires Inv(s) && c < |s.comps| && s.waiters[c].call.CommandCall? && s.waiters[c].pc.Blocking?
    requires p.Exact? && p.eEvent == Error && Present(p, s.comps[c].view.events)
    ensures var w, v' := s.waiters[c], Removed(s.comps[c].view, p).1;
            var watched := if w.call.other == c then v'.events else Others(s, w);
            Awake(v', w) && AwakeForOther(WithView(s, c, v'), c) <==>
              || (exists f :: f in s.comps[c].view.flags && f in MaskOf(w) && f != EventError)
              || (OnlySilentLeft(w.call, v'.events) && !Present(EndsCommand, watched))
  {
    assert WaiterOk(s, c);
    var v, w := s.comps[c].view, s.waiters[c];
    var v' := Removed(v, p).1;
    RemovedErrorOwnList(v, w, p);
    var s' := WithView(s, c, v');
    assert FailedElsewhere(s', c) <==> Present(EndsCommand, if w.call.other == c then v'.events else Others(s, w));
  }

  /** What is asked of removals under a wait, of any kind, is exactly what keeps the invariant. */
  lemma HarmlessIsExact(s: State, c: nat, p: Pattern)
    requires Inv(s) && c < |s.comps| && p.Exact?
    ensures Inv(WithView(s, c, Removed(s.comps[c].view, p).1)) <==> RemovalIsHarmless(s, c, p)
  {
    var s' := WithView(s, c, Removed(s.comps[c].view, p).1);
    if RemovalIsHarmless(s, c, p) {
      RemoveElsewhereKeepsInv(s, RemoveElsewhere(c, p));
    } else if FailedElsewhere(s', c) {
      assert !AwakeForOther(s', c);
      assert !WaiterOk(s', c);
    } else {
      var v' := s'.comps[c].view;
      var j :| 0 <= j < |v'.events| && Stirs(s.waiters[c], v'.events[j]);
      assert v'.events[j] in v'.events && !Awake(v', s.waiters[c]);
      assert !WaiterOk(s', c);
    }
  }

  // ---- Runs in which it happens ----

  lemma {:induction false} RunSnoc(s: State, steps: seq<Step>, mid: State, step: Step)
    requires IsRun(s, steps, mid) && WellSized(mid) && Enabled(mid, step)
    ensures IsRun(s, steps + [step], Next(mid, step))
    decreases |steps|
  {
    if steps == [] {
      assert steps + [step] == [step] && [step][1..] == [];
    } else {
      assert (steps + [step])[1..] == steps[1..] + [step];
      RunSnoc(Next(s, steps[0]), steps[1..], mid, step);
    }
  }

  /** The disk fills up under a command wait. */
  lemma SilentErrorWitness() returns (steps: seq<Step>, s: State)
    ensures IsRun(Initial(1), steps, s) && |s.comps| == |s.waiters| == 1
    ensures s.waiters[0].pc.Blocking? && s.waiters[0].call.CommandCall?
    ensures s.comps[0].view.flags !! MaskOf(s.waiters[0])
    ensures Present(EndsCommand, s.comps[0].view.events)
  {
    var s1, steps1 := AsleepOn(1, NONE);
    var step := Deliver(0, Error, ERROR_DISK_FULL, 1, 0, true);
    RunSnoc(Initial(1), steps1, s1, step);
    steps, s := steps1 + [step], Next(s1, step);
    assert s.comps[0].view.events[0] == Event(Error, ERROR_DISK_FULL, 1, 0);
  }

  /** One of n components begins to wait for a state change and falls asleep. */
  lemma AsleepOn(n: nat, other: int) returns (s: State, steps: seq<Step>)
    requires n > 0 && NONE <= other < n
    ensures IsRun(Initial(n), steps, s) && |s.comps| == |s.waiters| == n
    ensures s.waiters[0] == Waiter(Blocking, CommandCall(COMMAND_STATE_SET, 2, other), [])
    ensures forall i :: 0 < i < n ==> s.waiters[i] == IDLE
    ensures forall i :: 0 <= i < n ==> s.comps[i] == Comp(CompView([], {}, {}), if i == other then 0 else NONE)
  {
    var begin := BeginCommand(0, COMMAND_STATE_SET, 2, other);
    var s1 := Next(Initial(n), begin);
    RunSnoc(Initial(n), [], Initial(n), begin);
    assert [] + [begin] == [begin];
    RunSnoc(Initial(n), [begin], s1, Advance(0));
    steps, s := [begin] + [Advance(0)], Next(s1, Advance(0));
  }

  /** Two waits on the same component: the second takes related over, and the first sleeps
      through the failure. */
  lemma OverwrittenRelatedWitness() returns (steps: seq<Step>, s: State)
    ensures IsRun(Initial(3), steps, s) && |s.comps| == |s.waiters| == 3
    ensures s.waiters[0].pc.Blocking? && s.waiters[0].call.CommandCall? && s.waiters[0].call.other == 1
    ensures s.waiters[2].pc.Idle?
    ensures var both := Begun(s, 2, COMMAND_STATE_SET, 2, 1);
            var s' := Next(both, Deliver(1, Error, ERROR_BAD_PARAMETER, 1, 0, true));
            && s'.waiters[0] == s.waiters[0] && s'.comps[0].view.flags !! MaskOf(s'.waiters[0])
            && Present(EndsCommand, s'.comps[1].view.events)
  {
    s, steps := AsleepOn(3, 1);
    ReachableInv(3, steps, s);
    OverwrittenRelatedIsMissed(s, 0, 2, ERROR_BAD_PARAMETER, 0, true);
    var redirected := WithRelated(s, 1, 2);
    var both := Begun(s, 2, COMMAND_STATE_SET, 2, 1);
    assert both.comps == redirected.comps && both.waiters[0] == s.waiters[0];
    var step := Deliver(1, Error, ERROR_BAD_PARAMETER, 1, 0, true);
    assert Next(both, step).comps == Next(redirected, step).comps;
  }

  /** A failure of the watched component has raised the flag; removing an error that has
      nothing to do with the command takes it down. */
  lemma RemovedForwardedWitness() returns (steps: seq<Step>, s: State, p: Pattern)
    ensures IsRun(Initial(2), steps, s) && |s.comps| == |s.waiters| == 2
    ensures s.waiters[0].pc.Blocking? && s.waiters[0].call.CommandCall? && s.waiters[0].call.other == 1
    ensures p.Exact? && p.eEvent == Error
    ensures var (found, v') := Removed(s.comps[0].view, p);
            found && v'.flags !! MaskOf(s.waiters[0]) && v'.events == []
    ensures Present(EndsCommand, s.comps[1].view.events)
  {
    var s1, steps1 := AsleepOn(2, 1);
    var failure := Deliver(1, Error, ERROR_BAD_PARAMETER, 1, 0, true);
    var unrelated := Deliver(0, Error, ERROR_SAME_STATE, 0, 0, true);
    RunSnoc(Initial(2), steps1, s1, failure);
    var s2 := Next(s1, failure);
    RunSnoc(Initial(2), steps1 + [failure], s2, unrelated);
    steps, s := steps1 + [failure] + [unrelated], Next(s2, unrelated);
    assert s2.comps[0] == Comp(CompView([], {EventError}, {}), NONE);
    var failed := Event(Error, ERROR_BAD_PARAMETER, 1, 0);
    assert s2.comps[1].view.events == [failed] && Matches(EndsCommand, s.comps[1].view.events[0]);
    var e := Event(Error, ERROR_SAME_STATE, 0, 0);
    assert s.comps[0].view == CompView([e], {EventError}, {});
    p := Exact(Error, ERROR_SAME_STATE, false, 0, false);
    assert FirstMatch(p, [e]) == 0;
  }

  /** Two errors end the command; somebody removes the later one. */
  lemma RemovedErrorWitness() returns (steps: seq<Step>, s: State, p: Pattern)
    ensures IsRun(Initial(1), steps, s) && |s.comps| == |s.waiters| == 1
    ensures s.waiters[0].pc.Blocking? && s.waiters[0].call.CommandCall? && p.Exact? && p.eEvent == Error
    ensures var (found, v') := Removed(s.comps[0].view, p);
            && found && v'.flags !! MaskOf(s.waiters[0])
            && exists ev :: ev in v'.events && !IsSilent(ev)
                 && Matches(Completes(s.waiters[0].call.command, s.waiters[0].call.param), ev)
  {
    s, steps := TwoErrors();
    var early, late := Event(Error, ERROR_BAD_PARAMETER, 1, 0), Event(Error, ERROR_SAME_STATE, 1, 0);
    p := Exact(Error, ERROR_SAME_STATE, false, 1, false);
    assert FirstMatch(p, [late, early]) == 0;
    var v' := Removed(s.comps[0].view, p).1;
    assert v'.events == [early] && early in v'.events;
  }

  lemma TwoErrors() returns (s: State, steps: seq<Step>)
    ensures IsRun(Initial(1), steps, s) && |s.comps| == |s.waiters| == 1
    ensures s.waiters[0] == Waiter(Blocking, CommandCall(COMMAND_STATE_SET, 2, NONE), [])
    ensures var early, late := Event(Error, ERROR_BAD_PARAMETER, 1, 0), Event(Error, ERROR_SAME_STATE, 1, 0);
            s.comps[0].view == CompView([late, early], {EventError}, {})
  {
    var s1, steps1 := AsleepOn(1, NONE);
    var first := Deliver(0, Error, ERROR_BAD_PARAMETER, 1, 0, true);
    var second := Deliver(0, Error, ERROR_SAME_STATE, 1, 0, true);
    RunSnoc(Initial(1), steps1, s1, first);
    var s2 := Next(s1, first);
    RunSnoc(Initial(1), steps1 + [first], s2, second);
    steps, s := steps1 + [first] + [second], Next(s2, second);
    var early := Event(Error, ERROR_BAD_PARAMETER, 1, 0);
    assert s2.comps[0].view == CompView([early], {EventError}, {});
    assert Dedup([early]) == [early];
  }

  /** A wait for an event times out, having removed nothing, and yet the list has become
      shorter: a handler call has dropped a duplicate. */
  lemma ShrunkenListWitness() returns (steps: seq<Step>, s: State, more: seq<Step>, s': State)
    ensures IsRun(Initial(1), steps, s) && IsRun(s, more, s')
    ensures |s.comps| == |s.waiters| == |s'.comps| == |s'.waiters| == 1
    ensures s.waiters[0].pc.Trying? && s'.waiters[0].pc == Returned(-1) && s'.waiters[0].removed == []
    ensures |s'.comps[0].view.events| < |s.comps[0].view.events|
  {
    s, steps := TwoDuplicates();
    var asleep, looks := FindsNothing(s);
    var masked := Deliver(0, Error, ERROR_SAME_STATE, 0, 0, true);
    RunSnoc(s, looks, asleep, masked);
    var e, dropped := Event(PortSettingsChanged, 1, 1, 0), Next(asleep, masked);
    assert Purge([e], e) == [];
    assert dropped.comps[0].view == CompView([e], {ParameterChanged}, {SameState});
    RunSnoc(s, looks + [masked], dropped, TimeOut(0));
    more, s' := looks + [masked] + [TimeOut(0)], Next(dropped, TimeOut(0));
  }

  ghost predicate HasTwo(s: State, pc: Pc) {
    && |s.comps| == |s.waiters| == 1
    && var e := Event(PortSettingsChanged, 1, 1, 0);
       && s.comps[0] == Comp(CompView([e, e], {ParameterChanged}, {SameState}), NONE)
       && s.waiters[0] == Waiter(pc, EventCall(Exact(Mark, 0, true, 0, true), {BufferMark}), [])
  }

  /** The wait has a look and falls asleep. */
  lemma FindsNothing(s: State) returns (s': State, steps: seq<Step>)
    requires HasTwo(s, Trying)
    ensures IsRun(s, steps, s') && HasTwo(s', Blocking)
  {
    var s1 := Next(s, Advance(0));
    var s2 := Next(s1, Advance(0));
    s' := Next(s2, Advance(0));
    assert HasTwo(s1, CheckingError) && HasTwo(s2, CheckingConfig);
    RunSnoc(s, [], s, Advance(0));
    RunSnoc(s, [] + [Advance(0)], s1, Advance(0));
    RunSnoc(s, [] + [Advance(0)] + [Advance(0)], s2, Advance(0));
    steps := [] + [Advance(0)] + [Advance(0)] + [Advance(0)];
  }

  /** The same event twice on the list, and a wait for another one begins. */
  lemma TwoDuplicates() returns (s: State, steps: seq<Step>)
    ensures IsRun(Initial(1), steps, s) && HasTwo(s, Trying)
  {
    var mask, deliver := SetErrorMask(0, {SameState}), Deliver(0, PortSettingsChanged, 1, 1, 0, true);
    var begin := BeginEvent(0, Exact(Mark, 0, true, 0, true), {BufferMark});
    s, steps := Initial(1), [];
    RunSnoc(Initial(1), steps, s, mask);
    steps, s := steps + [mask], Next(s, mask);
    RunSnoc(Initial(1), steps, s, deliver);
    steps, s := steps + [deliver], Next(s, deliver);
    var e := Event(PortSettingsChanged, 1, 1, 0);
    assert s.comps[0].view.events == [e] && Dedup([e]) == [e];
    RunSnoc(Initial(1), steps, s, deliver);
    steps, s := steps + [deliver], Next(s, deliver);
    assert s.comps[0].view.events == [e, e];
    assert s.comps[0].view.flags == {ParameterChanged};
    RunSnoc(Initial(1), steps, s, begin);
    steps, s := steps + [begin], Next(s, begin);
  }

  // ---- What else holds in every run ----

  /** The same for ilclient_wait_for_event: asleep, it misses no event whose flag it waits on. */
  lemma NoLostWakeupForEvent(n: nat, steps: seq<Step>, s: State, c: nat, ev: Event)
    requires IsRun(Initial(n), steps, s) && c < |s.comps| == |s.waiters|
    requires s.waiters[c].pc.Blocking? && s.waiters[c].call.EventCall?
    requires s.comps[c].view.flags !! MaskOf(s.waiters[c])
    requires ev in s.comps[c].view.events && !(FlagsFor(ev) !! s.waiters[c].call.flags)
    ensures !Matches(s.waiters[c].call.pattern, ev)
    ensures ev.eEvent != Error && ev.eEvent != ParamOrConfigChanged
  {
    ReachableInv(n, steps, s);
    assert WaiterOk(s, c);
    assert !Wanted(s.waiters[c], ev);
    var f :| f in FlagsFor(ev) && f in s.waiters[c].call.flags;
  }

  /** What the waits have done when they return, in every run. */
  lemma WaitContracts(n: nat, steps: seq<Step>, s: State, c: nat)
    requires IsRun(Initial(n), steps, s) && c < |s.comps| == |s.waiters| && s.waiters[c].pc.Returned?
    ensures var w := s.waiters[c];
            match w.call
            case NoCall => false
            case EventCall(pattern, _) =>
              && -3 <= w.pc.ret <= 0
              && (w.pc.ret == 0 <==> |w.removed| == 1)
              && (w.pc.ret < 0 <==> w.removed == [])
              && (w.pc.ret == 0 ==> Matches(pattern, w.removed[0]))
            case CommandCall(command, param, other) =>
              && -2 <= w.pc.ret <= 0
              && (Supported(command) && w.pc.ret != -2 ==>
                    && |w.removed| == 1 && Matches(Completes(command, param), w.removed[0])
                    && (w.pc.ret == 0 <==>
                          w.removed[0].eEvent == CmdComplete || w.removed[0].nData1 == ERROR_SAME_STATE))
              && (!Supported(command) || w.pc.ret == -2 ==> w.removed == [])
    ensures forall o :: 0 <= o < |s.comps| ==> s.comps[o].related != c
  {
    ReachableInv(n, steps, s);
    assert WaiterOk(s, c);
  }

  /** s' is s without its first event that matches p, and that event is taken. */
  predicate TakesFirst(s: seq<Event>, p: Pattern, taken: seq<Event>, s': seq<Event>) {
    var k := FirstMatch(p, s);
    k < |s| && taken == [s[k]] && s' == s[..k] + s[k + 1..]
  }

  /** Why a wait for an event is over: what was on the list and which flags were up. */
  ghost predicate EventWaitEnded(call: Call, ret: int, removed: seq<Event>, v: CompView, v': CompView)
    requires call.EventCall?
  {
    || (ret == 0 && TakesFirst(v.events, call.pattern, removed, v'.events)
        && v'.flags == v.flags - if removed[0].eEvent == Error then {EventError}
                                 else if removed[0].eEvent == ParamOrConfigChanged then {ConfigChanged} else {})
    || (ret < 0 && removed == [] && v'.events == v.events
        && match ret
           case -1 => v.flags !! call.flags
           case -2 =>
             && EventError in call.flags && (EventError in v.flags || Present(OfType(Error), v.events))
             && EventError !in v'.flags
           case _ => ret == -3 && ConfigChanged in call.flags && !Present(call.pattern, v.events))
  }

  /** Why a command wait is over: what was on its list and on the watched one. */
  ghost predicate CommandWaitEnded(call: Call, ret: int, removed: seq<Event>, v: CompView, v': CompView,
                                   others: seq<Event>)
    requires call.CommandCall?
  {
    var p := Completes(call.command, call.param);
    || (ret == -2 && removed == [] && v' == v && !Present(p, v.events) && Present(EndsCommand, others))
    || (TakesFirst(v.events, p, removed, v'.events)
        && v'.flags == v.flags - (if removed[0].eEvent == Error then {EventError} else {})
        && ret == if removed[0].eEvent == CmdComplete || removed[0].nData1 == ERROR_SAME_STATE then 0 else -1)
  }

  /** The last try follows a configuration change that was on the list or had its flag up. */
  ghost predicate LastTryHasReason(call: Call, v: CompView)
    requires call.EventCall?
  {
    ConfigChanged in call.flags && (ConfigChanged in v.flags || Present(OfType(ParamOrConfigChanged), v.events))
  }

  lemma EventWaitEnds(v: CompView, w: Waiter)
    requires w.call.EventCall? && KeepsContract(w) && !IsOver(w)
    ensures var (v', w') := EventAdvanced(v, w);
            && (w'.pc.Returned? ==> EventWaitEnded(w.call, w'.pc.ret, w'.removed, v, v') && w'.pc.ret != -1)
            && (w'.pc.LastTry? ==> LastTryHasReason(w.call, v))
  {
    TakenMatches(v.events, w.call.pattern);
    TakenMatches(v.events, OfType(Error));
    TakenMatches(v.events, OfType(ParamOrConfigChanged));
  }

  lemma CommandWaitEnds(v: CompView, others: seq<Event>, w: Waiter)
    requires w.call.CommandCall? && KeepsContract(w) && !IsOver(w) && !w.pc.Leaving?
    ensures var (v', w') := CommandAdvanced(v, others, w);
            && !w'.pc.Returned?
            && (w'.pc.Leaving? ==> CommandWaitEnded(w.call, w'.pc.ret, w'.removed, v, v', others))
  {
    TakenMatches(v.events, Completes(w.call.command, w.call.param));
    TakenMatches(others, EndsCommand);
  }

  /** In every run, whenever a wait is decided: return code, removed event and the lists at
      that very moment agree. */
  lemma ReturnsForReason(n: nat, steps: seq<Step>, s: State, step: Step)
    requires IsRun(Initial(n), steps, s) && WellSized(s) && Enabled(s, step) && (step.Advance? || step.TimeOut?)
    ensures var c, s' := step.c, Next(s, step);
            var w, w', v, v' := s.waiters[c], s'.waiters[c], s.comps[c].view, s'.comps[c].view;
            && (w.call.EventCall? && w'.pc.Returned? ==> EventWaitEnded(w.call, w'.pc.ret, w'.removed, v, v'))
            && (w.call.EventCall? && w'.pc.Returned? ==> (w'.pc.ret == -1 <==> step.TimeOut?))
            && (w.call.EventCall? && w'.pc.LastTry? ==> LastTryHasReason(w.call, v))
            && (w.call.CommandCall? && w'.pc.Leaving? ==>
                  CommandWaitEnded(w.call, w'.pc.ret, w'.removed, v, v', Others(s, w)))
            && (w.call.CommandCall? && w'.pc.Returned? ==> w'.pc == Returned(w.pc.ret) && w'.removed == w.removed)
  {
    ReachableInv(n, steps, s);
    var w, v := s.waiters[step.c], s.comps[step.c].view;
    assert WaiterOk(s, step.c);
    if w.call.EventCall? && step.Advance? {
      EventWaitEnds(v, w);
    } else if w.call.CommandCall? && !w.pc.Leaving? {
      CommandWaitEnds(v, Others(s, w), w);
    }
  }

  /** The list invariant, in every run. */
  lemma ListsStayDistinct(n: nat, steps: seq<Step>, s: State, c: nat)
    requires IsRun(Initial(n), steps, s) && c < |s.comps|
    ensures TailDistinct(s.comps[c].view.events)
  {
    ReachableInv(n, steps, s);
  }
}

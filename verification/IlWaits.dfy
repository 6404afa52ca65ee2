/** What the waits and the event flags of the IL client mean, event by event: every kind of
    event and every flag written out. */
module IlWaits {
  import opened IlEvents
  import opened IlProtocol

  // ---- The flags ----

  /** The event that sets a flag, as the flags are documented.  The two buffer-done flags
      belong to other callbacks; mask are the errors to keep quiet about. */
  predicate SetBy(f: Flag, e: EventType, d1: Data, d2: Data, mask: set<ErrorMaskBit>) {
    match f
    case StateChanged => e == CmdComplete && d1 == COMMAND_STATE_SET
    case PortDisabled => e == CmdComplete && d1 == COMMAND_PORT_DISABLE
    case PortEnabled => e == CmdComplete && d1 == COMMAND_PORT_ENABLE
    case PortFlush => e == CmdComplete && d1 == COMMAND_FLUSH
    case MarkedBuffer => e == CmdComplete && d1 == COMMAND_MARK_BUFFER
    case BufferFlagEos => e == BufferFlag && d2 % 2 == 1
    case ParameterChanged => e == PortSettingsChanged
    case BufferMark => e == Mark
    case ConfigChanged => e == ParamOrConfigChanged
    case EventError =>
      && e == Error && d1 != ERROR_DISK_FULL && d1 != ERROR_MAX_FILE_SIZE
      && !(d1 == ERROR_PORT_UNPOPULATED && Unpopulated in mask)
      && !(d1 == ERROR_SAME_STATE && SameState in mask)
      && !(d1 == ERROR_BAD_PARAMETER && BadParameter in mask)
    case EmptyBufferDone => false
    case FillBufferDone => false
  }

  /** A handler call leaves up exactly the flags that were up and those that the event sets. */
  lemma FlagsAfterHandler(v: CompView, e: EventType, d1: Data, d2: Data, data: nat, room: bool, f: Flag)
    ensures f in Handled(v, e, d1, d2, data, room).flags <==> f in v.flags || SetBy(f, e, d1, d2, v.mask)
  {
  }

  /** On every other component a handler call sets at most the error flag, and that exactly on
      the related one and for an error that ends a command, masked or not. */
  lemma FlagsElsewhere(s: State, c: nat, e: EventType, d1: Data, d2: Data, data: nat, room: bool, o: nat, f: Flag)
    requires WellSized(s) && c < |s.comps| && o < |s.comps| && o != c
    ensures var s' := Next(s, Deliver(c, e, d1, d2, data, room));
            f in s'.comps[o].view.flags <==>
            f in s.comps[o].view.flags || (f == EventError && e == Error && d2 == 1 && s.comps[c].related == o)
  {
  }

  /** What the handler queues, field by field, and when it queues nothing. */
  lemma QueuedEvent(v: CompView, e: EventType, d1: Data, d2: Data, data: nat, room: bool)
    ensures var events := Handled(v, e, d1, d2, data, room).events;
            var quiet := e == Error && (|| (d1 == ERROR_PORT_UNPOPULATED && Unpopulated in v.mask)
                                        || (d1 == ERROR_SAME_STATE && SameState in v.mask)
                                        || (d1 == ERROR_BAD_PARAMETER && BadParameter in v.mask));
            if room && !quiet then
              && events == [events[0]] + Dedup(v.events)
              && events[0].eEvent == e && events[0].nData1 == d1 && events[0].pEventData == data
              && events[0].nData2 == if e == BufferFlag && d2 % 2 == 1 then 1 else d2
            else events == Dedup(v.events)
  {
  }

  /** Two events are duplicates exactly when no wait can tell them apart. */
  lemma DuplicatesAreIndistinguishable(a: Event, b: Event)
    ensures SameKey(a, b) <==> forall p :: Matches(p, a) <==> Matches(p, b)
  {
    if forall p :: Matches(p, a) <==> Matches(p, b) {
      var p := Exact(a.eEvent, a.nData1, false, a.nData2, false);
      assert Matches(p, a);
      assert Matches(p, b);
    }
  }

  // ---- The command wait ----

  /** What a finished command wait has removed, by its return code. */
  lemma CommandReturns(n: nat, steps: seq<Step>, s: State, c: nat)
    requires IsRun(Initial(n), steps, s) && c < |s.comps| == |s.waiters|
    requires s.waiters[c].call.CommandCall? && s.waiters[c].pc.Returned?
    ensures var call, ret, removed := s.waiters[c].call, s.waiters[c].pc.ret, s.waiters[c].removed;
            var known := call.command == COMMAND_STATE_SET || call.command == COMMAND_PORT_DISABLE
                         || call.command == COMMAND_PORT_ENABLE;
            if !known then ret == -1 && removed == []
            else if ret == 0 then
              && |removed| == 1
              && (|| (&& removed[0].eEvent == CmdComplete
                      && removed[0].nData1 == call.command && removed[0].nData2 == call.param)
                  || (&& removed[0].eEvent == Error
                      && removed[0].nData1 == ERROR_SAME_STATE && removed[0].nData2 == 1))
            else if ret == -1 then
              && |removed| == 1 && removed[0].eEvent == Error
              && removed[0].nData1 != ERROR_SAME_STATE && removed[0].nData2 == 1
            else ret == -2 && removed == []
  {
    WaitContracts(n, steps, s, c);
    ReachableInv(n, steps, s);
    assert WaiterOk(s, c);
  }

  /** From a sleeping command wait: what arrives now, and its return code if that ends it. */
  predicate Ends(call: Call, e: EventType, d1: Data, d2: Data, mask: set<ErrorMaskBit>, ret: int)
    requires call.CommandCall?
  {
    || (e == CmdComplete && d1 == call.command && d2 == call.param && ret == 0)
    || (SetBy(EventError, e, d1, d2, mask) && d2 == 1 && ret == if d1 == ERROR_SAME_STATE then 0 else -1)
  }

  /** Whenever the completion or the failure of its command reaches a sleeping wait, in any run,
      the wait wakes, takes that event off the list and returns: 0 for a completion, and for
      the error that the state was the same already, -1 for any other error. */
  lemma SleeperReturns(n: nat, steps: seq<Step>, s: State, c: nat,
                       e: EventType, d1: Data, d2: Data, data: nat, ret: int)
    returns (more: seq<Step>, s': State)
    requires IsRun(Initial(n), steps, s) && c < |s.comps| == |s.waiters|
    requires s.waiters[c].call.CommandCall? && s.waiters[c].pc.Blocking?
    requires Ends(s.waiters[c].call, e, d1, d2, s.comps[c].view.mask, ret)
    ensures more == [Deliver(c, e, d1, d2, data, true), Advance(c), Advance(c), Advance(c)]
    ensures IsRun(Initial(n), steps + more, s') && |s'.waiters| == |s.waiters|
    ensures s'.waiters[c].pc == Returned(ret)
    ensures s'.waiters[c].removed == [Event(e, d1, d2, data)]
  {
    ReachableInv(n, steps, s);
    assert WaiterOk(s, c);
    var s1, steps1 := DeliveredToSleeper(n, steps, s, c, e, d1, d2, data, ret);
    var s2, steps2 := Wakes(n, steps1, s1, c);
    var s3, steps3 := WokenFinds(n, steps2, s2, c, ret);
    RunSnoc(Initial(n), steps3, s3, Advance(c));
    s' := Next(s3, Advance(c));
    more := [Deliver(c, e, d1, d2, data, true), Advance(c), Advance(c), Advance(c)];
    assert steps3 + [Advance(c)] == steps + more;
  }

  /** A sleeping wait with nothing removed, and the newest event on its list. */
  ghost predicate HasArrived(s: State, c: nat, w: Waiter, ev: Event) {
    && WellSized(s) && c < |s.comps| && s.waiters[c] == w
    && w.call.CommandCall? && Supported(w.call.command) && w.removed == []
    && s.comps[c].view.events != [] && s.comps[c].view.events[0] == ev
  }

  lemma DeliveredToSleeper(n: nat, steps: seq<Step>, s: State, c: nat,
                           e: EventType, d1: Data, d2: Data, data: nat, ret: int)
    returns (s1: State, steps1: seq<Step>)
    requires IsRun(Initial(n), steps, s) && WellSized(s) && c < |s.comps|
    requires s.waiters[c].call.CommandCall? && s.waiters[c].pc.Blocking?
    requires Supported(s.waiters[c].call.command) && s.waiters[c].removed == []
    requires Ends(s.waiters[c].call, e, d1, d2, s.comps[c].view.mask, ret)
    ensures steps1 == steps + [Deliver(c, e, d1, d2, data, true)] && IsRun(Initial(n), steps1, s1)
    ensures |s1.waiters| == |s.waiters| && HasArrived(s1, c, s.waiters[c], Event(e, d1, d2, data))
    ensures !(s1.comps[c].view.flags !! MaskOf(s.waiters[c])) && s1.comps[c].view.mask == s.comps[c].view.mask
  {
    var step := Deliver(c, e, d1, d2, data, true);
    RunSnoc(Initial(n), steps, s, step);
    s1, steps1 := Next(s, step), steps + [step];
    var f := if e == Error then EventError
             else if d1 == COMMAND_STATE_SET then StateChanged
             else if d1 == COMMAND_PORT_DISABLE then PortDisabled else PortEnabled;
    assert f in s1.comps[c].view.flags && f in MaskOf(s1.waiters[c]);
  }

  lemma Wakes(n: nat, steps: seq<Step>, s: State, c: nat) returns (s2: State, steps2: seq<Step>)
    requires IsRun(Initial(n), steps, s) && WellSized(s) && c < |s.comps|
    requires s.waiters[c].call.CommandCall? && s.waiters[c].pc.Blocking? && s.comps[c].view.events != []
    requires HasArrived(s, c, s.waiters[c], s.comps[c].view.events[0])
    requires !(s.comps[c].view.flags !! MaskOf(s.waiters[c]))
    ensures steps2 == steps + [Advance(c)] && IsRun(Initial(n), steps2, s2)
    ensures HasArrived(s2, c, s.waiters[c].(pc := Looking), s.comps[c].view.events[0])
    ensures |s2.waiters| == |s.waiters| && s2.comps[c].view.mask == s.comps[c].view.mask
  {
    RunSnoc(Initial(n), steps, s, Advance(c));
    s2, steps2 := Next(s, Advance(c)), steps + [Advance(c)];
  }

  lemma WokenFinds(n: nat, steps: seq<Step>, s: State, c: nat, ret: int) returns (s3: State, steps3: seq<Step>)
    requires IsRun(Initial(n), steps, s) && WellSized(s) && c < |s.comps|
    requires s.waiters[c].call.CommandCall? && s.waiters[c].pc.Looking? && s.comps[c].view.events != []
    requires HasArrived(s, c, s.waiters[c], s.comps[c].view.events[0])
    requires var ev := s.comps[c].view.events[0];
             Ends(s.waiters[c].call, ev.eEvent, ev.nData1, ev.nData2, s.comps[c].view.mask, ret)
    ensures steps3 == steps + [Advance(c)] && IsRun(Initial(n), steps3, s3)
    ensures |s3.waiters| == |s.waiters| && |s3.comps| == |s.comps|
    ensures s3.waiters[c] == s.waiters[c].(pc := Leaving(ret), removed := [s.comps[c].view.events[0]])
  {
    RunSnoc(Initial(n), steps, s, Advance(c));
    s3, steps3 := Next(s, Advance(c)), steps + [Advance(c)];
    var call, events := s.waiters[c].call, s.comps[c].view.events;
    FirstMatchIs(Completes(call.command, call.param), events, 0);
  }

  /** Which commands are waited for at all, and that nothing but the wait's own flags and the
      error flag is taken down by it. */
  lemma CommandWaitFlags(command: Data)
    ensures Supported(command) <==>
            command == COMMAND_STATE_SET || command == COMMAND_PORT_DISABLE || command == COMMAND_PORT_ENABLE
    ensures CommandMask(COMMAND_STATE_SET) == {EventError, StateChanged}
    ensures CommandMask(COMMAND_PORT_DISABLE) == {EventError, PortDisabled}
    ensures CommandMask(COMMAND_PORT_ENABLE) == {EventError, PortEnabled}
  {
  }

  /** The flags one step of a wait takes down: those of its mask on waking, the error flag with
      an error it removes or reports, the configuration flag with such an event it removes. */
  lemma WaitTakesDown(s: State, c: nat, f: Flag)
    requires WellSized(s) && Enabled(s, Advance(c)) && f in s.comps[c].view.flags
    ensures f in Next(s, Advance(c)).comps[c].view.flags || f in MaskOf(s.waiters[c])
            || f == EventError || f == ConfigChanged
    ensures s.waiters[c].pc.Blocking? ==>
              Next(s, Advance(c)).comps[c].view.flags == s.comps[c].view.flags - MaskOf(s.waiters[c])
  {
  }

  // ---- The event wait ----

  /** What a wait for an event that returned 0 has removed is what it was called for. */
  lemma EventReturnsZero(n: nat, steps: seq<Step>, s: State, c: nat)
    requires IsRun(Initial(n), steps, s) && c < |s.comps| == |s.waiters|
    requires s.waiters[c].call.EventCall? && s.waiters[c].pc == Returned(0)
    ensures var p, removed := s.waiters[c].call.pattern, s.waiters[c].removed;
            && p.Exact? && |removed| == 1
            && removed[0].eEvent == p.eEvent
            && (p.ignore1 || removed[0].nData1 == p.nData1)
            && (p.ignore2 || removed[0].nData2 == p.nData2)
  {
    ReachableInv(n, steps, s);
    assert WaiterOk(s, c);
  }

  /** A wait that tries returns 0 at once exactly when what it was called for is on the list. */
  lemma TryFinds(n: nat, steps: seq<Step>, s: State, c: nat)
    requires IsRun(Initial(n), steps, s) && c < |s.comps| == |s.waiters|
    requires s.waiters[c].call.EventCall? && (s.waiters[c].pc.Trying? || s.waiters[c].pc.LastTry?)
    ensures var p := s.waiters[c].call.pattern;
            && p.Exact?
            && (Next(s, Advance(c)).waiters[c].pc == Returned(0) <==>
                  exists ev :: ev in s.comps[c].view.events && ev.eEvent == p.eEvent
                               && (p.ignore1 || ev.nData1 == p.nData1) && (p.ignore2 || ev.nData2 == p.nData2))
  {
    ReachableInv(n, steps, s);
    assert WaiterOk(s, c);
    TakenMatches(s.comps[c].view.events, s.waiters[c].call.pattern);
  }

  /** A wait for an event, asleep with no flag of its mask up, in any run: none of the events it
      was called for is on its list if it asked for the flag documented for that event. */
  lemma SleeperMissesNone(n: nat, steps: seq<Step>, s: State, c: nat, ev: Event)
    requires IsRun(Initial(n), steps, s) && c < |s.comps| == |s.waiters|
    requires s.waiters[c].pc.Blocking? && s.waiters[c].call.EventCall?
    requires s.comps[c].view.flags !! s.waiters[c].call.flags
    requires ev in s.comps[c].view.events && Matches(s.waiters[c].call.pattern, ev)
    ensures var mask := s.waiters[c].call.flags;
            && (ev.eEvent == CmdComplete && ev.nData1 == COMMAND_STATE_SET ==> StateChanged !in mask)
            && (ev.eEvent == CmdComplete && ev.nData1 == COMMAND_PORT_DISABLE ==> PortDisabled !in mask)
            && (ev.eEvent == CmdComplete && ev.nData1 == COMMAND_PORT_ENABLE ==> PortEnabled !in mask)
            && (ev.eEvent == CmdComplete && ev.nData1 == COMMAND_FLUSH ==> PortFlush !in mask)
            && (ev.eEvent == CmdComplete && ev.nData1 == COMMAND_MARK_BUFFER ==> MarkedBuffer !in mask)
            && (ev.eEvent == BufferFlag && ev.nData2 == 1 ==> BufferFlagEos !in mask)
            && (ev.eEvent == PortSettingsChanged ==> ParameterChanged !in mask)
            && (ev.eEvent == Mark ==> BufferMark !in mask)
            && (ev.eEvent == ParamOrConfigChanged ==> ConfigChanged !in mask)
            && (ev.eEvent == Error && ev.nData1 != ERROR_DISK_FULL && ev.nData1 != ERROR_MAX_FILE_SIZE ==>
                  EventError !in mask)
  {
    if !(FlagsFor(ev) !! s.waiters[c].call.flags) {
      NoLostWakeupForEvent(n, steps, s, c, ev);
    }
    forall f | SetBy(f, ev.eEvent, ev.nData1, ev.nData2, {})
      ensures f !in s.waiters[c].call.flags
    {
      assert f in FlagsFor(ev);
    }
  }
}

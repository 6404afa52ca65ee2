/** Events, event flags and the list operations of the OpenMAX IL client, on values.

    A component's event list is a sequence of events, newest first.  The classes in
    IlClient.dfy splice the linked cells; here is what those splices mean. */
module IlEvents {

  // The event kinds the client tells apart.  Unused is the mark (-1) of a free cell.
  datatype EventType =
    | Unused
    | CmdComplete
    | Error
    | BufferFlag
    | PortSettingsChanged
    | Mark
    | ParamOrConfigChanged
    | OtherEvent(code: nat)

  // nData1 of a CmdComplete event is a command, of an Error event an error code.
  // The proofs use only that these numbers differ.
  type Data = nat

  const COMMAND_STATE_SET: Data := 0
  const COMMAND_FLUSH: Data := 1
  const COMMAND_PORT_DISABLE: Data := 2
  const COMMAND_PORT_ENABLE: Data := 3
  const COMMAND_MARK_BUFFER: Data := 4

  const ERROR_BAD_PARAMETER: Data := 0x8000_1005
  const ERROR_SAME_STATE: Data := 0x8000_1012
  const ERROR_PORT_UNPOPULATED: Data := 0x8000_101C
  const ERROR_DISK_FULL: Data := 0x9000_0001
  const ERROR_MAX_FILE_SIZE: Data := 0x9000_0002

  const BUFFERFLAG_EOS: Data := 1

  datatype Event = Event(eEvent: EventType, nData1: Data, nData2: Data, pEventData: nat)

  datatype Flag =
    | EmptyBufferDone | FillBufferDone | PortDisabled | PortEnabled | StateChanged
    | BufferFlagEos | ParameterChanged | EventError | PortFlush | MarkedBuffer
    | BufferMark | ConfigChanged

  datatype ErrorMaskBit = Unpopulated | SameState | BadParameter

  // What one component's locked state amounts to.
  datatype CompView = CompView(events: seq<Event>, flags: set<Flag>, mask: set<ErrorMaskBit>)

  // ---- Matching ----

  datatype Pattern =
    | Exact(eEvent: EventType, nData1: Data, ignore1: bool, nData2: Data, ignore2: bool)
    | Completes(command: Data, param: Data)
    | EndsCommand
    | OfType(kind: EventType)

  predicate IsCommandEnding(ev: Event) {
    ev.eEvent == Error && ev.nData2 == 1
  }

  predicate Matches(p: Pattern, ev: Event) {
    match p
    case Exact(e, d1, i1, d2, i2) =>
      ev.eEvent == e && (i1 || ev.nData1 == d1) && (i2 || ev.nData2 == d2)
    case Completes(command, param) =>
      (ev.eEvent == CmdComplete && ev.nData1 == command && ev.nData2 == param) || IsCommandEnding(ev)
    case EndsCommand => IsCommandEnding(ev)
    case OfType(kind) => ev.eEvent == kind
  }

  /** Index of the first event matching p, |s| when there is none. */
  function FirstMatch(p: Pattern, s: seq<Event>): (k: nat)
    ensures k <= |s|
    ensures k < |s| ==> Matches(p, s[k])
    ensures forall j :: 0 <= j < k ==> !Matches(p, s[j])
  {
    if s == [] then 0
    else if Matches(p, s[0]) then 0
    else
      var rest := FirstMatch(p, s[1..]);
      assert forall j :: 1 <= j < rest + 1 ==> s[j] == s[1..][j - 1];
      rest + 1
  }

  lemma FirstMatchIs(p: Pattern, s: seq<Event>, k: nat)
    requires k <= |s|
    requires forall j :: 0 <= j < k ==> !Matches(p, s[j])
    requires k == |s| || Matches(p, s[k])
    ensures FirstMatch(p, s) == k
  {
  }

  predicate Present(p: Pattern, s: seq<Event>) {
    exists j :: 0 <= j < |s| && Matches(p, s[j])
  }

  function RemoveAt<T>(s: seq<T>, k: nat): (r: seq<T>)
    requires k < |s|
    ensures |r| == |s| - 1
  {
    s[..k] + s[k + 1..]
  }

  // ---- Removal of duplicates ----

  predicate SameKey(a: Event, b: Event) {
    a.eEvent == b.eEvent && a.nData1 == b.nData1 && a.nData2 == b.nData2
  }

  predicate HasKey(s: seq<Event>, e: Event) {
    exists j :: 0 <= j < |s| && SameKey(s[j], e)
  }

  ghost predicate KeysDistinct(s: seq<Event>) {
    forall i, j :: 0 <= i < j < |s| ==> !SameKey(s[i], s[j])
  }

  /** The list invariant: everything behind the newest event has distinct keys. */
  ghost predicate TailDistinct(s: seq<Event>) {
    s == [] || KeysDistinct(s[1..])
  }

  /** One pass of the handler's inner loop: s without the events keyed like e. */
  function Purge(s: seq<Event>, e: Event): (r: seq<Event>)
    ensures |r| <= |s| && (|r| == |s| ==> r == s)
    ensures !HasKey(r, e)
    ensures forall x :: x in r ==> x in s
  {
    if s == [] then []
    else if SameKey(s[0], e) then Purge(s[1..], e)
    else [s[0]] + Purge(s[1..], e)
  }

  /** Both loops of the handler: each event in turn purges what follows it. */
  function Dedup(s: seq<Event>): seq<Event>
    decreases |s|
  {
    if s == [] then [] else [s[0]] + Dedup(Purge(s[1..], s[0]))
  }

  /** Reference definition, built from the other end: an event stays exactly when
      no event before it has the same key. */
  function FirstOccurrences(s: seq<Event>): seq<Event> {
    if s == [] then []
    else
      var init, last := s[..|s| - 1], s[|s| - 1];
      FirstOccurrences(init) + if HasKey(init, last) then [] else [last]
  }

  lemma {:induction false} PurgeSnoc(s: seq<Event>, x: Event, e: Event)
    ensures Purge(s + [x], e) == Purge(s, e) + if SameKey(x, e) then [] else [x]
  {
    if s == [] {
      assert s + [x] == [x];
    } else {
      PurgeSnoc(s[1..], x, e);
      assert (s + [x])[1..] == s[1..] + [x];
    }
  }

  lemma {:induction false} PurgeKeepsOtherKeys(s: seq<Event>, e: Event, x: Event)
    ensures !SameKey(x, e) ==> (HasKey(Purge(s, e), x) <==> HasKey(s, x))
  {
    if s != [] && !SameKey(x, e) {
      PurgeKeepsOtherKeys(s[1..], e, x);
      var p := Purge(s[1..], e);
      HasKeyCons(s[0], s[1..], x);
      HasKeyCons(s[0], p, x);
      assert [s[0]] + s[1..] == s;
    }
  }

  lemma HasKeyCons(h: Event, t: seq<Event>, x: Event)
    ensures HasKey([h] + t, x) <==> SameKey(h, x) || HasKey(t, x)
  {
    var s := [h] + t;
    if HasKey(t, x) {
      var j :| 0 <= j < |t| && SameKey(t[j], x);
      assert s[j + 1] == t[j];
    }
    if SameKey(h, x) {
      assert s[0] == h;
    }
    if HasKey(s, x) && !SameKey(h, x) {
      var j :| 0 <= j < |s| && SameKey(s[j], x);
      assert s[j] == t[j - 1];
    }
  }

  lemma FirstOccurrencesSnoc(init: seq<Event>, x: Event)
    ensures FirstOccurrences(init + [x]) == FirstOccurrences(init) + if HasKey(init, x) then [] else [x]
  {
    var s := init + [x];
    assert s[..|s| - 1] == init && s[|s| - 1] == x;
  }

  lemma {:induction false} FirstOccurrencesCons(e: Event, r: seq<Event>)
    ensures FirstOccurrences([e] + r) == [e] + FirstOccurrences(Purge(r, e))
    decreases |r|
  {
    if r == [] {
      assert [e] + r == [e] && [e][..0] == [];
    } else {
      var init, x := r[..|r| - 1], r[|r| - 1];
      assert r == init + [x] && [e] + r == ([e] + init) + [x];
      FirstOccurrencesCons(e, init);
      FirstOccurrencesSnoc([e] + init, x);
      PurgeSnoc(init, x, e);
      PurgeKeepsOtherKeys(init, e, x);
      HasKeyCons(e, init, x);
      if SameKey(x, e) {
        assert Purge(r, e) == Purge(init, e);
      } else {
        FirstOccurrencesSnoc(Purge(init, e), x);
      }
    }
  }

  /** What the inner loop will make of s when it has got to position j. */
  function PurgedFrom(s: seq<Event>, j: nat, key: Event): seq<Event>
    requires j < |s|
  {
    s[..j + 1] + Purge(s[j + 1..], key)
  }

  /** What the outer loop will make of s when it has got to position i. */
  function DedupedFrom(s: seq<Event>, i: nat): seq<Event>
    requires i <= |s|
  {
    s[..i] + Dedup(s[i..])
  }

  /** One turn of the inner loop: the event behind position j goes, or is passed. */
  lemma PurgeTurn(s: seq<Event>, j: nat, key: Event)
    requires j + 1 < |s|
    ensures PurgedFrom(s, j, key) ==
            if SameKey(s[j + 1], key) then PurgedFrom(RemoveAt(s, j + 1), j, key) else PurgedFrom(s, j + 1, key)
  {
    var s' := RemoveAt(s, j + 1);
    assert s[j + 1..][1..] == s[j + 2..] == s'[j + 1..];
    assert s'[..j + 1] == s[..j + 1] && s[..j + 2] == s[..j + 1] + [s[j + 1]];
  }

  /** One turn of the outer loop. */
  lemma DedupTurn(s: seq<Event>, i: nat)
    requires i < |s|
    ensures var s' := PurgedFrom(s, i, s[i]);
            i < |s'| && DedupedFrom(s', i + 1) == DedupedFrom(s, i)
  {
    var s' := PurgedFrom(s, i, s[i]);
    assert s[i..][1..] == s[i + 1..];
    assert s'[i + 1..] == Purge(s[i + 1..], s[i]) && s'[..i + 1] == s[..i] + [s[i]];
  }

  /** The nested loops keep exactly the first event of every key, in order. */
  lemma {:induction false} DedupKeepsFirstOccurrences(s: seq<Event>)
    ensures Dedup(s) == FirstOccurrences(s)
    decreases |s|
  {
    if s != [] {
      DedupKeepsFirstOccurrences(Purge(s[1..], s[0]));
      FirstOccurrencesCons(s[0], s[1..]);
      assert [s[0]] + s[1..] == s;
    }
  }

  lemma {:induction false} DedupSound(s: seq<Event>)
    ensures KeysDistinct(Dedup(s))
    ensures forall x :: x in Dedup(s) ==> x in s
    decreases |s|
  {
    if s != [] {
      var p := Purge(s[1..], s[0]);
      DedupSound(p);
      var d := Dedup(p);
      forall j | 0 <= j < |d|
        ensures !SameKey(s[0], d[j])
      {
        assert d[j] in p;
        var k :| 0 <= k < |p| && p[k] == d[j];
        assert !SameKey(p[k], s[0]);
      }
    }
  }

  lemma {:induction false} DedupKeepsKeys(s: seq<Event>, x: Event)
    ensures HasKey(Dedup(s), x) <==> HasKey(s, x)
    decreases |s|
  {
    if s != [] {
      var p := Purge(s[1..], s[0]);
      DedupKeepsKeys(p, x);
      PurgeKeepsOtherKeys(s[1..], s[0], x);
      HasKeyCons(s[0], s[1..], x);
      HasKeyCons(s[0], Dedup(p), x);
      assert [s[0]] + s[1..] == s;
    }
  }

  lemma {:induction false} PurgeAbsent(s: seq<Event>, e: Event)
    requires !HasKey(s, e)
    ensures Purge(s, e) == s
  {
    if s != [] {
      HasKeyCons(s[0], s[1..], e);
      assert [s[0]] + s[1..] == s;
      PurgeAbsent(s[1..], e);
    }
  }

  /** The pass changes nothing exactly when there is nothing to remove. */
  lemma {:induction false} DedupFixpoint(s: seq<Event>)
    ensures |Dedup(s)| <= |s| && (|Dedup(s)| == |s| ==> Dedup(s) == s)
    ensures Dedup(s) == s <==> KeysDistinct(s)
    decreases |s|
  {
    if s != [] {
      var e, r := s[0], s[1..];
      DedupFixpoint(Purge(r, e));
      if KeysDistinct(s) {
        assert !HasKey(r, e) by {
          forall j | 0 <= j < |r| ensures !SameKey(r[j], e) {
            assert !SameKey(s[0], s[j + 1]);
          }
        }
        PurgeAbsent(r, e);
        assert KeysDistinct(r) by {
          forall i, j | 0 <= i < j < |r| ensures !SameKey(r[i], r[j]) {
            assert !SameKey(s[i + 1], s[j + 1]);
          }
        }
        assert [e] + r == s;
      } else {
        DedupSound(s);
      }
    }
  }

  /** The list invariant survives removing any one event. */
  lemma TailDistinctAfterRemoval(s: seq<Event>, k: nat)
    requires k < |s| && TailDistinct(s)
    ensures TailDistinct(RemoveAt(s, k))
  {
    var r := RemoveAt(s, k);
    if r != [] {
      var t, u := s[1..], r[1..];
      forall i, j | 0 <= i < j < |u|
        ensures !SameKey(u[i], u[j])
      {
        var i', j' := if i + 1 < k then i else i + 1, if j + 1 < k then j else j + 1;
        assert u[i] == t[i'] && u[j] == t[j'];
      }
    }
  }

  // ---- The event handler on values ----

  /** The error codes a component has been told to keep quiet about. */
  predicate Masked(e: EventType, d1: Data, mask: set<ErrorMaskBit>) {
    && e == Error
    && (|| (d1 == ERROR_PORT_UNPOPULATED && Unpopulated in mask)
        || (d1 == ERROR_SAME_STATE && SameState in mask)
        || (d1 == ERROR_BAD_PARAMETER && BadParameter in mask))
  }

  /** What the handler stores: buffer flags are reduced to the end-of-stream bit. */
  function Stored(e: EventType, d1: Data, d2: Data, data: nat): Event {
    Event(e, d1, if e == BufferFlag && d2 % 2 == BUFFERFLAG_EOS then BUFFERFLAG_EOS else d2, data)
  }

  /** The event flags the handler raises on the component itself. */
  function RaisedFlags(e: EventType, d1: Data, d2: Data, mask: set<ErrorMaskBit>): set<Flag> {
    match e
    case CmdComplete =>
      if d1 == COMMAND_STATE_SET then {StateChanged}
      else if d1 == COMMAND_PORT_DISABLE then {PortDisabled}
      else if d1 == COMMAND_PORT_ENABLE then {PortEnabled}
      else if d1 == COMMAND_FLUSH then {PortFlush}
      else if d1 == COMMAND_MARK_BUFFER then {MarkedBuffer}
      else {}
    case Error =>
      if Masked(e, d1, mask) || d1 == ERROR_DISK_FULL || d1 == ERROR_MAX_FILE_SIZE then {}
      else {EventError}
    case BufferFlag => if d2 % 2 == BUFFERFLAG_EOS then {BufferFlagEos} else {}
    case PortSettingsChanged => {ParameterChanged}
    case Mark => {BufferMark}
    case ParamOrConfigChanged => {ConfigChanged}
    case Unused => {}
    case OtherEvent(_) => {}
  }

  /** The flags it raises on the related component, masked error or not. */
  function Forwarded(e: EventType, d2: Data): set<Flag> {
    if e == Error && d2 == 1 then {EventError} else {}
  }

  function HandlerEvents(s: seq<Event>, e: EventType, d1: Data, d2: Data, data: nat,
                         mask: set<ErrorMaskBit>, room: bool): seq<Event> {
    if Masked(e, d1, mask) || !room then Dedup(s) else [Stored(e, d1, d2, data)] + Dedup(s)
  }

  /** What a handler call does to its component.  room: a cell is spare once the duplicates
      are gone; without one the flags go up all the same and the event is dropped. */
  function Handled(v: CompView, e: EventType, d1: Data, d2: Data, data: nat, room: bool): CompView {
    v.(events := HandlerEvents(v.events, e, d1, d2, data, v.mask, room),
       flags := v.flags + RaisedFlags(e, d1, d2, v.mask))
  }

  /** The flag by which a queued event was announced on its own component. */
  function FlagsFor(ev: Event): set<Flag> {
    RaisedFlags(ev.eEvent, ev.nData1, ev.nData2, {})
  }

  /** Every event that enters a list is announced, in the same locked section, by
      the flags that FlagsFor reads back off it. */
  lemma QueuedIsAnnounced(e: EventType, d1: Data, d2: Data, data: nat, mask: set<ErrorMaskBit>)
    requires !Masked(e, d1, mask)
    ensures RaisedFlags(e, d1, d2, mask) == FlagsFor(Stored(e, d1, d2, data))
  {
  }

  lemma SameKeySameMeaning(a: Event, b: Event, p: Pattern)
    requires SameKey(a, b)
    ensures Matches(p, a) <==> Matches(p, b)
    ensures FlagsFor(a) == FlagsFor(b)
  {
  }

  /** Dropping duplicates never drops what a wait looks for. */
  lemma DedupKeepsMatches(s: seq<Event>, p: Pattern)
    ensures Present(p, Dedup(s)) <==> Present(p, s)
  {
    var d := Dedup(s);
    DedupSound(s);
    if Present(p, d) {
      var j :| 0 <= j < |d| && Matches(p, d[j]);
      assert d[j] in s;
    }
    if Present(p, s) {
      var j :| 0 <= j < |s| && Matches(p, s[j]);
      DedupKeepsKeys(s, s[j]);
      assert SameKey(s[j], s[j]);
      var i :| 0 <= i < |d| && SameKey(d[i], s[j]);
      SameKeySameMeaning(d[i], s[j], p);
    }
  }

  /** What a wait can find after a handler call: what was there, and the new event unless it
      is masked or there is no room for it. */
  lemma HandledPresent(v: CompView, e: EventType, d1: Data, d2: Data, data: nat, room: bool, p: Pattern)
    ensures Present(p, Handled(v, e, d1, d2, data, room).events) <==>
            Present(p, v.events) || (room && !Masked(e, d1, v.mask) && Matches(p, Stored(e, d1, d2, data)))
  {
    DedupKeepsMatches(v.events, p);
    var d, r := Dedup(v.events), Handled(v, e, d1, d2, data, room).events;
    if Present(p, d) {
      var j :| 0 <= j < |d| && Matches(p, d[j]);
      assert d[j] == r[j + |r| - |d|];
    }
    if room && !Masked(e, d1, v.mask) && Matches(p, Stored(e, d1, d2, data)) {
      assert Matches(p, r[0]);
    }
    if Present(p, r) {
      var j :| 0 <= j < |r| && Matches(p, r[j]);
      assert r[j] in d || r[j] == Stored(e, d1, d2, data);
    }
  }

  /** After every handler call the list satisfies its invariant. */
  lemma HandlerEstablishesTailDistinct(v: CompView, e: EventType, d1: Data, d2: Data, data: nat, room: bool)
    ensures TailDistinct(Handled(v, e, d1, d2, data, room).events)
  {
    DedupSound(v.events);
    var d := Dedup(v.events);
    assert ([Stored(e, d1, d2, data)] + d)[1..] == d;
  }

  // ---- Removal on values ----

  /** ilclient_remove_event: the flags it takes down with a removed event. */
  function ConsumedByRemoval(e: EventType): set<Flag> {
    if e == Error then {EventError} else if e == ParamOrConfigChanged then {ConfigChanged} else {}
  }

  function Removed(v: CompView, p: Pattern): (bool, CompView) {
    var k := FirstMatch(p, v.events);
    if k == |v.events| then (false, v)
    else if p.Exact? then
      (true, v.(events := RemoveAt(v.events, k), flags := v.flags - ConsumedByRemoval(p.eEvent)))
    else (true, v.(events := RemoveAt(v.events, k)))
  }

  /** One locked pass of the command wait. */
  datatype Verdict = Finished(ret: int) | KeepWaiting

  function CommandMask(command: Data): set<Flag> {
    if command == COMMAND_STATE_SET then {EventError, StateChanged}
    else if command == COMMAND_PORT_DISABLE then {EventError, PortDisabled}
    else if command == COMMAND_PORT_ENABLE then {EventError, PortEnabled}
    else {EventError}
  }

  predicate Supported(command: Data) {
    command == COMMAND_STATE_SET || command == COMMAND_PORT_DISABLE || command == COMMAND_PORT_ENABLE
  }

  /** Success, or the failure that is as good as one. */
  predicate CountsAsSuccess(ev: Event) {
    ev.eEvent == CmdComplete || ev.nData1 == ERROR_SAME_STATE
  }

  function CommandPass(v: CompView, other: seq<Event>, command: Data, param: Data): (Verdict, CompView) {
    var k := FirstMatch(Completes(command, param), v.events);
    if k < |v.events| then
      var ev := v.events[k];
      (Finished(if CountsAsSuccess(ev) then 0 else -1),
       v.(events := RemoveAt(v.events, k),
          flags := if ev.eEvent == Error then v.flags - {EventError} else v.flags))
    else if FirstMatch(EndsCommand, other) < |other| then (Finished(-2), v)
    else (KeepWaiting, v)
  }

  /** One locked pass of the command wait removes the first completing event and nothing
      else; when it gives up for the other component it removes nothing, and a
      command-ending error is there to be found. */
  lemma CommandPassContract(v: CompView, other: seq<Event>, command: Data, param: Data)
    ensures var (verdict, v') := CommandPass(v, other, command, param);
            match verdict
            case Finished(ret) =>
              if ret == -2 then
                v' == v && !Present(Completes(command, param), v.events) && Present(EndsCommand, other)
              else
                exists k :: 0 <= k < |v.events|
                  && Matches(Completes(command, param), v.events[k])
                  && (forall j :: 0 <= j < k ==> !Matches(Completes(command, param), v.events[j]))
                  && v'.events == v.events[..k] + v.events[k + 1..]
                  && ret == (if v.events[k].eEvent == CmdComplete || v.events[k].nData1 == ERROR_SAME_STATE then 0
                             else -1)
            case KeepWaiting =>
              v' == v && !Present(Completes(command, param), v.events) && !Present(EndsCommand, other)
  {
    var k := FirstMatch(Completes(command, param), v.events);
    if k < |v.events| {
      assert Matches(Completes(command, param), v.events[k]);
    }
  }
}

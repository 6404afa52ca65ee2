/** The OpenMAX IL client as it runs: components and the cell pool they share.
    Every method is one locked section of the source, proved against the functions on
    values of IlEvents and the pool moves of IlPool. */
module IlClient {
  import opened IlEvents
  import opened IlPool

  class Component {
    const client: Client
    var list: int
    var event: set<Flag>
    var related: Component?
    var errorMask: set<ErrorMaskBit>
    ghost const id: nat  // its list in the pool

    ghost function View(): CompView
      requires client.Valid() && client.Has(this)
      reads this, client, client.eventRep, client.comps
    {
      CompView(client.pool.events[id], event, errorMask)
    }

    /** A new component starts with an empty list. */
    constructor (client: Client)
      requires client.Valid()
      modifies client`comps, client`pool
      ensures this.client == client && client.Valid()
      ensures client.comps == old(client.comps) + [this] && client.Has(this)
      ensures client.pool == WithNewList(old(client.pool))
      ensures View() == CompView([], {}, {}) && related == null
    {
      this.client := client;
      list, event, related, errorMask, id := NIL, {}, null, {}, |client.comps| + 1;
      new;
      NewListIsPool(client.pool);
      client.comps, client.pool := client.comps + [this], WithNewList(client.pool);
    }
  }

  /** The second component a failed command is reported to. */
  ghost function Notified(c: Component): set<Component>
    reads c
  {
    if c.related == null then {} else {c.related}
  }

  class Client {
    var eventList: int
    const eventRep: array<Cell>
    ghost var pool: Pool
    ghost var comps: seq<Component>

    ghost predicate Has(c: Component)
      reads this
    {
      1 <= c.id <= |comps| && comps[c.id - 1] == c
    }

    ghost predicate Valid()
      reads this, eventRep, comps
    {
      && IsPool(pool)
      && eventRep[..] == pool.rep
      && eventList == pool.heads[SPARE]
      && |pool.heads| == |comps| + 1
      && (forall i :: 0 <= i < |comps| ==>
            && comps[i].client == this
            && comps[i].id == i + 1
            && comps[i].list == pool.heads[i + 1]
            && (comps[i].related != null ==> Has(comps[i].related)))
    }

    /** ilclient_init: all cells are marked unused and pushed on the spare list. */
    constructor ()
      ensures Valid() && comps == [] && fresh(eventRep)
      ensures |pool.cells[SPARE]| == NUM_EVENTS
      ensures forall ev :: ev in pool.events[SPARE] ==> ev.eEvent == Unused
    {
      eventRep := new Cell[NUM_EVENTS](_ => Cell(UNUSED_EVENT, NIL));
      eventList, comps := NIL, [];
      new;
      var i := 0;
      ghost var cs: seq<int>, s: seq<Event>, owner: seq<nat> := [], [], seq(NUM_EVENTS, _ => SPARE);
      while i < NUM_EVENTS
        invariant 0 <= i <= NUM_EVENTS && |cs| == i && comps == []
        invariant |owner| == NUM_EVENTS && forall x :: 0 <= x < NUM_EVENTS ==> owner[x] == SPARE
        invariant IsList(eventRep[..], owner, SPARE, eventList, cs, s)
        invariant forall x :: x in cs ==> 0 <= x < i
        invariant forall ev :: ev in s ==> ev.eEvent == Unused
      {
        ghost var was := eventRep[..];
        eventRep[i] := Cell(UNUSED_EVENT, eventList);
        ListFrame(was, owner, eventRep[..], owner, SPARE, eventList, cs, s);
        assert ([i] + cs)[1..] == cs && ([UNUSED_EVENT] + s)[1..] == s;
        cs, s := [i] + cs, [UNUSED_EVENT] + s;
        eventList := i;
        i := i + 1;
      }
      pool := Pool(eventRep[..], [eventList], owner, [cs], [s]);
      ListMembers(pool.rep, owner, SPARE, eventList, cs, s);
      ListedAll(pool, 1);
      assert Total(pool.cells) == |cs| + Total(pool.cells[1..]);
    }

    /** What the cells of a component's list look like in the array. */
    lemma CellAt(c: Component, k: nat)
      requires Valid() && Has(c)
      ensures |pool.events[c.id]| == |pool.cells[c.id]| && c.list == At(pool.cells[c.id], 0)
      ensures k < |pool.cells[c.id]| ==>
                && 0 <= pool.cells[c.id][k] < NUM_EVENTS
                && eventRep[pool.cells[c.id][k]] == Cell(pool.events[c.id][k], At(pool.cells[c.id], k + 1))
      ensures k + 1 < |pool.cells[c.id]| ==> 0 <= pool.cells[c.id][k + 1] < NUM_EVENTS
      ensures 0 < k <= |pool.cells[c.id]| ==> 0 <= pool.cells[c.id][k - 1] < NUM_EVENTS
    {
      ListInPool(pool, c.id);
      if k < |pool.cells[c.id]| {
        ListAt(pool.rep, pool.owner, c.id, c.list, pool.cells[c.id], pool.events[c.id], k);
      }
    }

    /** Walk a component's list to the first event matching p. */
    method Scan(c: Component, p: Pattern) returns (cur: int, prev: int, ghost k: nat)
      requires Valid() && Has(c)
      ensures |pool.cells[c.id]| == |pool.events[c.id]|
      ensures k == FirstMatch(p, c.View().events)
      ensures cur == At(pool.cells[c.id], k) && prev == At(pool.cells[c.id], k - 1)
      ensures cur == NIL <==> k == |c.View().events|
      ensures cur != NIL ==> 0 <= cur < NUM_EVENTS && eventRep[cur].val == c.View().events[k]
      ensures -1 <= prev < NUM_EVENTS
    {
      ghost var cs, s := pool.cells[c.id], pool.events[c.id];
      cur, prev, k := c.list, NIL, 0;
      CellAt(c, 0);
      while cur != NIL && !Matches(p, eventRep[cur].val)
        invariant k <= |cs|
        invariant cur == At(cs, k) && prev == At(cs, k - 1) && -1 <= prev < NUM_EVENTS
        invariant k < |cs| ==> 0 <= cur < NUM_EVENTS && eventRep[cur] == Cell(s[k], At(cs, k + 1))
        invariant forall j :: 0 <= j < k ==> !Matches(p, s[j])
        decreases |cs| - k
      {
        prev, cur, k := cur, eventRep[cur].next, k + 1;
        CellAt(c, k);
      }
      FirstMatchIs(p, s, k);
    }

    /** The lists of all components but c are as they were. */
    twostate predicate OtherListsKept(c: Component)
      reads this
    {
      && comps == old(comps)
      && c.id < |pool.events|
      && SameOtherLists(old(pool), pool, c.id)
    }

    /** In particular every other component has its events. */
    lemma OtherEventsKept(before: Pool, c: Component)
      requires Valid() && Has(c) && SameOtherLists(before, pool, c.id)
      ensures |before.events| == |comps| + 1
      ensures forall i :: 0 <= i < |comps| && comps[i] != c ==> pool.events[i + 1] == before.events[i + 1]
    {
      forall i | 0 <= i < |comps| && comps[i] != c
        ensures pool.events[i + 1] == before.events[i + 1]
      {
        OtherEvents(before, pool, c.id, i + 1);
      }
    }

    /** The pointer writes: bridge over cell cur of c's list and push it on the spare list. */
    method Unlink(c: Component, prev: int, cur: int)
      requires 0 <= cur < eventRep.Length && -1 <= prev < eventRep.Length
      modifies this`eventList, c`list, eventRep
      ensures eventRep[..] == Bridged(old(eventRep[..]), prev, cur, Cell(old(eventRep[cur].val), old(eventList)))
      ensures c.list == if prev == NIL then old(eventRep[cur].next) else old(c.list)
      ensures eventList == cur
    {
      if prev == NIL {
        c.list := eventRep[cur].next;
      } else {
        eventRep[prev] := eventRep[prev].(next := eventRep[cur].next);
      }
      eventRep[cur] := eventRep[cur].(next := eventList);
      eventList := cur;
    }

    /** Bridge over cell cur of c's list and push it on the spare list. */
    method Recycle(c: Component, prev: int, cur: int, ghost k: nat)
      requires Valid() && Has(c) && k < |pool.cells[c.id]| == |pool.events[c.id]|
      requires cur == pool.cells[c.id][k] && prev == At(pool.cells[c.id], k - 1)
      requires 0 <= cur < NUM_EVENTS && -1 <= prev < NUM_EVENTS
      modifies this`eventList, this`pool, c`list, eventRep
      ensures Valid() && OtherListsKept(c)
      ensures pool.cells[c.id] == RemoveAt(old(pool).cells[c.id], k)
      ensures pool.events[c.id] == RemoveAt(old(pool).events[c.id], k)
      ensures pool.cells[SPARE] == [cur] + old(pool).cells[SPARE]
      ensures pool.events[SPARE] == [old(pool).events[c.id][k].(eEvent := Unused)] + old(pool).events[SPARE]
    {
      ghost var val := pool.events[c.id][k].(eEvent := Unused);
      CellAt(c, k);
      MovedIsPool(pool, c.id, k, SPARE, val);
      MovedOtherLists(pool, c.id, k, SPARE, val);
      Unlink(c, prev, cur);
      eventRep[cur] := eventRep[cur].(val := eventRep[cur].val.(eEvent := Unused));
      pool := Moved(pool, c.id, k, SPARE, val);
    }

    /** ilclient_remove_event */
    method RemoveEvent(c: Component, eEvent: EventType, nData1: Data, ignore1: bool, nData2: Data, ignore2: bool)
      returns (r: int)
      requires Valid() && Has(c)
      modifies this`eventList, this`pool, c`list, c`event, eventRep
      ensures Valid() && OtherListsKept(c)
      ensures var (found, v) := Removed(old(c.View()), Exact(eEvent, nData1, ignore1, nData2, ignore2));
              r == (if found then 0 else -1) && c.View() == v
      ensures r == 0 <==> exists ev :: ev in old(c.View()).events && ev.eEvent == eEvent
                                      && (ignore1 || ev.nData1 == nData1) && (ignore2 || ev.nData2 == nData2)
      ensures c.event == old(c.event) - if r != 0 then {} else if eEvent == Error then {EventError}
                                        else if eEvent == ParamOrConfigChanged then {ConfigChanged} else {}
      ensures |pool.cells[SPARE]| == |old(pool).cells[SPARE]| + if r == 0 then 1 else 0
    {
      var cur, prev, k := Scan(c, Exact(eEvent, nData1, ignore1, nData2, ignore2));
      if cur == NIL {
        return -1;
      }
      Recycle(c, prev, cur, k);
      if eEvent == Error {
        c.event := c.event - {EventError};
      } else if eEvent == ParamOrConfigChanged {
        c.event := c.event - {ConfigChanged};
      }
      return 0;
    }

    /** Put the head of c's list on the spare list as it is. */
    method ReturnHead(c: Component)
      requires Valid() && Has(c) && c.list != NIL
      modifies this`eventList, this`pool, c`list, eventRep
      ensures Valid() && OtherListsKept(c)
      ensures |old(pool).events[c.id]| > 0 && pool.events[c.id] == old(pool).events[c.id][1..]
      ensures |pool.cells[SPARE]| == |old(pool).cells[SPARE]| + 1
    {
      CellAt(c, 0);
      MovedIsPool(pool, c.id, 0, SPARE, pool.events[c.id][0]);
      MovedOtherLists(pool, c.id, 0, SPARE, pool.events[c.id][0]);
      Unlink(c, NIL, c.list);
      pool := Moved(pool, c.id, 0, SPARE, pool.events[c.id][0]);
    }

    /** ilclient_return_events: the cells go back as they are, flags are left alone. */
    method ReturnEvents(c: Component)
      requires Valid() && Has(c)
      modifies this`eventList, this`pool, c`list, eventRep
      ensures Valid() && OtherListsKept(c)
      ensures c.View() == old(c.View()).(events := [])
      ensures |pool.cells[SPARE]| == |old(pool).cells[SPARE]| + |old(c.View()).events|
      ensures forall i :: 0 <= i < |comps| && comps[i] != c ==> pool.events[i + 1] == old(pool).events[i + 1]
    {
      ghost var before := pool;
      while c.list != NIL
        invariant Valid() && OtherListsKept(c)
        invariant |pool.cells[SPARE]| + |pool.events[c.id]| == |old(pool).cells[SPARE]| + |old(c.View()).events|
        decreases |pool.events[c.id]|
      {
        ReturnHead(c);
      }
      CellAt(c, 0);
      OtherEventsKept(before, c);
    }

    /** The look into a component's list that the waits take before they block. */
    method HasEvent(c: Component, p: Pattern) returns (found: bool)
      requires Valid() && Has(c)
      ensures found <==> Present(p, c.View().events)
    {
      var cur, _, k := Scan(c, p);
      found := cur != NIL;
    }

    /** A completing event was found: take it off the list. */
    method Finish(c: Component, prev: int, cur: int, ghost k: nat) returns (verdict: Verdict)
      requires Valid() && Has(c) && k < |pool.cells[c.id]| == |pool.events[c.id]|
      requires cur == pool.cells[c.id][k] && prev == At(pool.cells[c.id], k - 1)
      requires 0 <= cur < NUM_EVENTS && -1 <= prev < NUM_EVENTS && eventRep[cur].val == pool.events[c.id][k]
      modifies this`eventList, this`pool, c`list, c`event, eventRep
      ensures Valid() && OtherListsKept(c)
      ensures var ev := old(pool).events[c.id][k];
              && verdict == Finished(if CountsAsSuccess(ev) then 0 else -1)
              && pool.events[c.id] == RemoveAt(old(pool).events[c.id], k)
              && c.event == if ev.eEvent == Error then old(c.event) - {EventError} else old(c.event)
      ensures |pool.cells[SPARE]| == |old(pool).cells[SPARE]| + 1
    {
      var ev := eventRep[cur].val;
      verdict := Finished(if ev.eEvent == CmdComplete || ev.nData1 == ERROR_SAME_STATE then 0 else -1);
      if ev.eEvent == Error {
        c.event := c.event - {EventError};
      }
      Recycle(c, prev, cur, k);
    }

    /** One locked pass of ilclient_wait_for_command_complete_dual. */
    method CommandWaitPass(c: Component, command: Data, nData2: Data, other: Component?) returns (verdict: Verdict)
      requires Valid() && Has(c) && (other != null ==> Has(other))
      modifies this`eventList, this`pool, c`list, c`event, eventRep
      ensures Valid() && OtherListsKept(c)
      ensures (verdict, c.View()) ==
              CommandPass(old(c.View()), if other == null then [] else old(other.View()).events, command, nData2)
      ensures |pool.cells[SPARE]| + |c.View().events| == |old(pool).cells[SPARE]| + |old(c.View()).events|
    {
      var cur, prev, k := Scan(c, Completes(command, nData2));
      if cur != NIL {
        verdict := Finish(c, prev, cur, k);
      } else if other != null {
        var failed, _, k' := Scan(other, EndsCommand);
        verdict := if failed != NIL then Finished(-2) else KeepWaiting;
      } else {
        verdict := KeepWaiting;
      }
    }

    /** One turn of the inner loop: at is the j-th cell, look at the one behind it. */
    method PurgeNext(c: Component, at: int, ghost j: nat, key: Event) returns (dropped: bool, next: int)
      requires Valid() && Has(c) && j < |pool.cells[c.id]| && at == pool.cells[c.id][j]
      requires 0 <= at < NUM_EVENTS && eventRep[at].next != NIL
      modifies this`eventList, this`pool, c`list, eventRep
      ensures Valid() && OtherListsKept(c)
      ensures j + 1 < |old(pool).events[c.id]| == |old(pool).cells[c.id]|
      ensures next == old(pool).cells[c.id][j + 1] && 0 <= next < NUM_EVENTS
      ensures dropped == SameKey(old(pool).events[c.id][j + 1], key)
      ensures !dropped ==> pool == old(pool)
      ensures dropped ==>
                && pool.events[c.id] == RemoveAt(old(pool).events[c.id], j + 1)
                && pool.cells[c.id] == RemoveAt(old(pool).cells[c.id], j + 1)
                && |pool.cells[SPARE]| == |old(pool).cells[SPARE]| + 1
    {
      CellAt(c, j);
      CellAt(c, j + 1);
      next := eventRep[at].next;
      dropped := SameKey(eventRep[next].val, key);
      if dropped {
        Recycle(c, at, next, j + 1);
      }
    }

    /** The inner loop of the handler: drop what follows the i-th event and has its key. */
    method PurgeAfter(c: Component, event: int, ghost i: nat)
      requires Valid() && Has(c) && i < |pool.cells[c.id]| == |pool.events[c.id]| && event == pool.cells[c.id][i]
      modifies this`eventList, this`pool, c`list, eventRep
      ensures Valid() && OtherListsKept(c)
      ensures i < |pool.cells[c.id]| && event == pool.cells[c.id][i]
      ensures pool.events[c.id] == PurgedFrom(old(pool).events[c.id], i, old(pool).events[c.id][i])
      ensures |pool.cells[SPARE]| + |pool.events[c.id]| == |old(pool).cells[SPARE]| + |old(pool).events[c.id]|
    {
      CellAt(c, i);
      var key, at := eventRep[event].val, event;
      ghost var s, cs, j := pool.events[c.id], pool.cells[c.id], i;
      while eventRep[at].next != NIL
        invariant Valid() && OtherListsKept(c)
        invariant pool.events[c.id] == s && pool.cells[c.id] == cs
        invariant i <= j < |s| == |cs| && event == cs[i] && at == cs[j] && 0 <= at < NUM_EVENTS
        invariant PurgedFrom(s, j, key) == PurgedFrom(old(pool).events[c.id], i, key)
        invariant |pool.cells[SPARE]| + |s| == |old(pool).cells[SPARE]| + |old(pool).events[c.id]|
        decreases |s| - j
      {
        var dropped, next := PurgeNext(c, at, j, key);
        PurgeTurn(s, j, key);
        if dropped {
          s, cs := RemoveAt(s, j + 1), RemoveAt(cs, j + 1);
        } else {
          at, j := next, j + 1;
        }
      }
      CellAt(c, j);
      assert PurgedFrom(s, j, key) == s;
    }

    /** The nested loops at the head of ilclient_event_handler. */
    method RemoveDuplicates(c: Component)
      requires Valid() && Has(c)
      modifies this`eventList, this`pool, c`list, eventRep
      ensures Valid() && OtherListsKept(c)
      ensures c.View() == old(c.View()).(events := Dedup(old(c.View()).events))
      ensures |pool.cells[SPARE]| + |c.View().events| == |old(pool).cells[SPARE]| + |old(c.View()).events|
    {
      CellAt(c, 0);
      var event := c.list;
      ghost var i, s := 0, pool.events[c.id];
      while event != NIL
        invariant Valid() && OtherListsKept(c)
        invariant pool.events[c.id] == s
        invariant i <= |s| == |pool.cells[c.id]| && event == At(pool.cells[c.id], i)
        invariant event == NIL <==> i == |s|
        invariant DedupedFrom(s, i) == DedupedFrom(old(pool).events[c.id], 0)
        invariant |pool.cells[SPARE]| + |s| == |old(pool).cells[SPARE]| + |old(pool).events[c.id]|
        decreases |s| - i
      {
        PurgeAfter(c, event, i);
        DedupTurn(s, i);
        CellAt(c, i);
        s := pool.events[c.id];
        event := eventRep[event].next;
        i := i + 1;
      }
      assert DedupedFrom(s, i) == s;
    }

    /** Take the top of the spare list, fill it in, put it at the head of c's list. */
    method Enqueue(c: Component, ev: Event)
      requires Valid() && Has(c) && eventList != NIL
      modifies this`eventList, this`pool, c`list, eventRep
      ensures Valid() && OtherListsKept(c)
      ensures pool.events[c.id] == [ev] + old(pool).events[c.id]
      ensures |pool.cells[SPARE]| == |old(pool).cells[SPARE]| - 1
    {
      ListInPool(pool, SPARE);
      ListAt(pool.rep, pool.owner, SPARE, eventList, pool.cells[SPARE], pool.events[SPARE], 0);
      MovedIsPool(pool, SPARE, 0, c.id, ev);
      MovedOtherLists(pool, SPARE, 0, c.id, ev);

      var event := eventList;
      eventRep[event] := eventRep[event].(val := ev);
      eventList := eventRep[event].next;
      eventRep[event] := eventRep[event].(next := c.list);
      c.list := event;
      pool := Moved(pool, SPARE, 0, c.id, ev);
    }

    /** The switch of the handler: raise the flags, decide whether the event is queued. */
    method Announce(c: Component, eEvent: EventType, nData1: Data, nData2: Data) returns (queued: bool, nData2': Data)
      modifies c`event, Notified(c)`event
      ensures queued == !Masked(eEvent, nData1, c.errorMask)
      ensures c.event == old(c.event) + RaisedFlags(eEvent, nData1, nData2, c.errorMask)
                         + if c.related == c then Forwarded(eEvent, nData2) else {}
      ensures c.related != null && c.related != c ==>
                c.related.event == old(c.related.event) + Forwarded(eEvent, nData2)
      ensures forall data :: Event(eEvent, nData1, nData2', data) == Stored(eEvent, nData1, nData2, data)
    {
      queued, nData2' := true, nData2;
      match eEvent {
        case CmdComplete =>
          if nData1 == COMMAND_STATE_SET {
            c.event := c.event + {StateChanged};
          } else if nData1 == COMMAND_PORT_DISABLE {
            c.event := c.event + {PortDisabled};
          } else if nData1 == COMMAND_PORT_ENABLE {
            c.event := c.event + {PortEnabled};
          } else if nData1 == COMMAND_FLUSH {
            c.event := c.event + {PortFlush};
          } else if nData1 == COMMAND_MARK_BUFFER {
            c.event := c.event + {MarkedBuffer};
          }
        case Error =>
          if nData2 == 1 && c.related != null {
            c.related.event := c.related.event + {EventError};
          }
          if nData1 == ERROR_PORT_UNPOPULATED && Unpopulated in c.errorMask {
            queued := false;
          } else if nData1 == ERROR_SAME_STATE && SameState in c.errorMask {
            queued := false;
          } else if nData1 == ERROR_BAD_PARAMETER && BadParameter in c.errorMask {
            queued := false;
          } else if nData1 != ERROR_DISK_FULL && nData1 != ERROR_MAX_FILE_SIZE {
            c.event := c.event + {EventError};
          }
        case BufferFlag =>
          if nData2 % 2 == BUFFERFLAG_EOS {
            c.event := c.event + {BufferFlagEos};
            nData2' := BUFFERFLAG_EOS;
          }
        case PortSettingsChanged =>
          c.event := c.event + {ParameterChanged};
        case Mark =>
          c.event := c.event + {BufferMark};
        case ParamOrConfigChanged =>
          c.event := c.event + {ConfigChanged};
        case Unused =>
        case OtherEvent(_) =>
      }
    }

    /** A cell is spare once the duplicates on c's list are gone. */
    ghost predicate HasRoom(c: Component)
      requires Valid() && Has(c)
      reads this, eventRep, comps
    {
      |pool.cells[SPARE]| > 0 || !KeysDistinct(pool.events[c.id])
    }

    /** Duplicates out, then a look at the spare list. */
    method Tidy(c: Component) returns (event: int)
      requires Valid() && Has(c)
      modifies this`eventList, this`pool, c`list, eventRep
      ensures Valid() && OtherListsKept(c)
      ensures c.View() == old(c.View()).(events := Dedup(old(c.View()).events))
      ensures |pool.cells[SPARE]| + |c.View().events| == |old(pool).cells[SPARE]| + |old(c.View()).events|
      ensures event == eventList && (event != NIL <==> old(HasRoom(c)))
    {
      DedupFixpoint(c.View().events);
      RemoveDuplicates(c);
      ListInPool(pool, SPARE);
      event := eventList;
    }

    /** ilclient_event_handler up to the unlock.  Without a spare cell the event is lost. */
    method EventHandler(c: Component, eEvent: EventType, nData1: Data, nData2: Data, pEventData: nat)
      requires Valid() && Has(c)
      modifies this`eventList, this`pool, c`list, c`event, Notified(c)`event, eventRep
      ensures Valid() && OtherListsKept(c)
      ensures var v := Handled(old(c.View()), eEvent, nData1, nData2, pEventData, old(HasRoom(c)));
              c.View() == v.(flags := v.flags + if c.related == c then Forwarded(eEvent, nData2) else {})
      ensures c.related != null && c.related != c ==>
                c.related.event == old(c.related.event) + Forwarded(eEvent, nData2)
      ensures |pool.cells[SPARE]| + |c.View().events| == |old(pool).cells[SPARE]| + |old(c.View()).events|
    {
      var event := Tidy(c);
      var queued, nData2' := Announce(c, eEvent, nData1, nData2);
      if queued && event != NIL {
        Enqueue(c, Event(eEvent, nData1, nData2', pEventData));
      }
    }
  }

  // ---- A pool that runs out ----

  /** n different events, the newest first. */
  function Numbered(n: nat): (s: seq<Event>)
    ensures |s| == n
    ensures forall i :: 0 <= i < n ==> s[i] == Event(PortSettingsChanged, n - 1 - i, 0, 0)
  {
    if n == 0 then [] else [Event(PortSettingsChanged, n - 1, 0, 0)] + Numbered(n - 1)
  }

  /** One more event of the kind that no list holds yet. */
  method Fill(client: Client, c: Component, n: nat)
    requires client.Valid() && client.Has(c) && c.related == null
    requires c.View() == CompView(Numbered(n), if n == 0 then {} else {ParameterChanged}, {})
    requires |client.pool.cells[SPARE]| + n == NUM_EVENTS && n < NUM_EVENTS
    modifies client`eventList, client`pool, c`list, c`event, client.eventRep
    ensures client.Valid() && client.Has(c) && c.View() == CompView(Numbered(n + 1), {ParameterChanged}, {})
    ensures |client.pool.cells[SPARE]| + n + 1 == NUM_EVENTS
  {
    DedupFixpoint(Numbered(n));
    client.EventHandler(c, PortSettingsChanged, n, 0, 0);
    assert Numbered(n + 1) == [Event(PortSettingsChanged, n, 0, 0)] + Numbered(n);
  }

  method FillUp() returns (client: Client, c: Component)
    ensures fresh(client) && fresh(client.eventRep) && fresh(c)
    ensures client.Valid() && client.Has(c) && c.related == null
    ensures c.View() == CompView(Numbered(NUM_EVENTS), {ParameterChanged}, {})
    ensures client.pool.cells[SPARE] == []
  {
    client := new Client();
    c := new Component(client);
    var n := 0;
    while n < NUM_EVENTS
      invariant fresh(client) && fresh(client.eventRep) && fresh(c)
      invariant 0 <= n <= NUM_EVENTS && client.Valid() && client.Has(c) && c.related == null
      invariant c.View() == CompView(Numbered(n), if n == 0 then {} else {ParameterChanged}, {})
      invariant |client.pool.cells[SPARE]| + n == NUM_EVENTS
    {
      Fill(client, c, n);
      n := n + 1;
    }
  }

  /** A component with as many different events queued as there are cells, and then a command
      completes: its flag is up and the event is nowhere. */
  method LostEventWitness() returns (client: Client, c: Component)
    ensures client.Valid() && client.Has(c) && StateChanged in c.event
    ensures !Present(Completes(COMMAND_STATE_SET, 2), c.View().events) && |c.View().events| == NUM_EVENTS
  {
    client, c := FillUp();
    DedupFixpoint(Numbered(NUM_EVENTS));
    client.EventHandler(c, CmdComplete, COMMAND_STATE_SET, 2, 0);
    assert c.View().events == Numbered(NUM_EVENTS);
  }
}

/** The event cells of the OpenMAX IL client on values: NUM_EVENTS cells in one array,
    linked through next into the spare list and one list per component.  A pointer to
    a cell is its index in the array, NIL is the null pointer. */
module IlPool {
  import opened IlEvents

  const NUM_EVENTS := 100
  const NIL := -1
  const SPARE := 0

  datatype Cell = Cell(val: Event, next: int)

  const UNUSED_EVENT := Event(Unused, 0, 0, 0)

  /** heads are the real list pointers, list SPARE first; owner, cells and events say
      what following them finds. */
  datatype Pool = Pool(rep: seq<Cell>, heads: seq<int>,
                       owner: seq<nat>, cells: seq<seq<int>>, events: seq<seq<Event>>)

  function At(cs: seq<int>, k: int): int {
    if 0 <= k < |cs| then cs[k] else NIL
  }

  /** Following next from head visits exactly cs, never twice, and stops; the cells
      visited hold the events s and belong to list j. */
  predicate IsList(rep: seq<Cell>, owner: seq<nat>, j: nat, head: int, cs: seq<int>, s: seq<Event>)
    requires |owner| == |rep|
    decreases cs
  {
    if cs == [] then head == NIL && s == []
    else
      && s != []
      && head == cs[0]
      && 0 <= head < |rep|
      && cs[0] !in cs[1..]
      && owner[head] == j
      && rep[head].val == s[0]
      && IsList(rep, owner, j, rep[head].next, cs[1..], s[1..])
  }

  lemma {:induction false} ListMembers(rep: seq<Cell>, owner: seq<nat>, j: nat, head: int, cs: seq<int>, s: seq<Event>)
    requires |owner| == |rep| && IsList(rep, owner, j, head, cs, s)
    ensures |s| == |cs|
    ensures head == At(cs, 0)
    ensures forall i :: 0 <= i < |cs| ==> 0 <= cs[i] < |rep| && owner[cs[i]] == j
    decreases cs
  {
    if cs != [] {
      ListMembers(rep, owner, j, rep[head].next, cs[1..], s[1..]);
    }
  }

  lemma {:induction false} ListAt(rep: seq<Cell>, owner: seq<nat>, j: nat, head: int, cs: seq<int>, s: seq<Event>,
                                  k: nat)
    requires |owner| == |rep| && IsList(rep, owner, j, head, cs, s)
    requires k < |cs|
    ensures |s| == |cs|
    ensures 0 <= cs[k] < |rep| && rep[cs[k]] == Cell(s[k], At(cs, k + 1))
    decreases cs
  {
    if k > 0 || |cs| > 1 {
      ListAt(rep, owner, j, rep[head].next, cs[1..], s[1..], if k > 0 then k - 1 else 0);
    }
  }

  /** No cell is visited twice. */
  lemma {:induction false} ListAcyclic(rep: seq<Cell>, owner: seq<nat>, j: nat, head: int, cs: seq<int>, s: seq<Event>)
    requires |owner| == |rep| && IsList(rep, owner, j, head, cs, s)
    ensures forall i, i' :: 0 <= i < i' < |cs| ==> cs[i] != cs[i']
    decreases cs
  {
    if cs != [] {
      ListAcyclic(rep, owner, j, rep[head].next, cs[1..], s[1..]);
    }
  }

  lemma {:induction false} ListFrame(rep: seq<Cell>, owner: seq<nat>, rep': seq<Cell>, owner': seq<nat>,
                                     j: nat, head: int, cs: seq<int>, s: seq<Event>)
    requires |owner| == |rep| == |owner'| == |rep'| && IsList(rep, owner, j, head, cs, s)
    requires forall x :: x in cs && 0 <= x < |rep| ==> rep'[x] == rep[x] && owner'[x] == owner[x]
    ensures IsList(rep', owner', j, head, cs, s)
    decreases cs
  {
    if cs != [] {
      ListFrame(rep, owner, rep', owner', j, rep[head].next, cs[1..], s[1..]);
    }
  }

  /** A list does not notice writes to cells of other lists. */
  lemma OtherList(rep: seq<Cell>, owner: seq<nat>, rep': seq<Cell>, owner': seq<nat>,
                  j: nat, head: int, cs: seq<int>, s: seq<Event>)
    requires |owner| == |rep| == |owner'| == |rep'| && IsList(rep, owner, j, head, cs, s)
    requires forall x :: 0 <= x < |rep| && owner[x] == j ==> rep'[x] == rep[x] && owner'[x] == owner[x]
    ensures IsList(rep', owner', j, head, cs, s)
  {
    ListMembers(rep, owner, j, head, cs, s);
    ListFrame(rep, owner, rep', owner', j, head, cs, s);
  }

  // ---- All lists together ----

  predicate Shaped(p: Pool) {
    && |p.owner| == |p.rep| == NUM_EVENTS
    && |p.heads| == |p.cells| == |p.events| > 0
  }

  predicate Listed(p: Pool, j: nat)
    requires Shaped(p) && j < |p.heads|
  {
    IsList(p.rep, p.owner, j, p.heads[j], p.cells[j], p.events[j])
  }

  predicate AllListed(p: Pool, n: nat)
    requires Shaped(p) && n <= |p.heads|
  {
    n == 0 || (Listed(p, n - 1) && AllListed(p, n - 1))
  }

  lemma {:induction false} ListedAt(p: Pool, n: nat, j: nat)
    requires Shaped(p) && j < n <= |p.heads| && AllListed(p, n)
    ensures Listed(p, j)
    decreases n
  {
    if j < n - 1 {
      ListedAt(p, n - 1, j);
    }
  }

  lemma {:induction false} ListedAll(p: Pool, n: nat)
    requires Shaped(p) && n <= |p.heads|
    requires forall j :: 0 <= j < n ==> Listed(p, j)
    ensures AllListed(p, n)
  {
    if n > 0 {
      ListedAll(p, n - 1);
    }
  }

  function Total(css: seq<seq<int>>): nat {
    if css == [] then 0 else |css[0]| + Total(css[1..])
  }

  lemma {:induction false} TotalUpdate(css: seq<seq<int>>, j: nat, cs: seq<int>)
    requires j < |css|
    ensures Total(css[j := cs]) == Total(css) - |css[j]| + |cs|
  {
    if j == 0 {
      assert css[0 := cs][1..] == css[1..];
    } else {
      TotalUpdate(css[1..], j - 1, cs);
      assert css[j := cs][1..] == css[1..][j - 1 := cs];
    }
  }

  lemma {:induction false} TotalSnoc(css: seq<seq<int>>, cs: seq<int>)
    ensures Total(css + [cs]) == Total(css) + |cs|
  {
    if css == [] {
      assert css + [cs] == [cs];
    } else {
      TotalSnoc(css[1..], cs);
      assert (css + [cs])[1..] == css[1..] + [cs];
    }
  }

  /** Every list is acyclic, a cell is only in the list that owns it, none is lost. */
  predicate IsPool(p: Pool) {
    && Shaped(p)
    && AllListed(p, |p.heads|)
    && Total(p.cells) == NUM_EVENTS
  }

  // ---- Moving one cell ----

  /** The two array writes of a move: bridge over cur, then overwrite it. */
  function Bridged(rep: seq<Cell>, prev: int, cur: int, cell: Cell): (r: seq<Cell>)
    requires 0 <= cur < |rep| && -1 <= prev < |rep|
    ensures |r| == |rep|
  {
    (if prev == NIL then rep else rep[prev := rep[prev].(next := rep[cur].next)])[cur := cell]
  }

  /** Unlink the k-th cell of list from, give it the contents val, push it on list to. */
  function Moved(p: Pool, from: nat, k: nat, to: nat, val: Event): (r: Pool)
    requires Shaped(p) && from < |p.heads| && to < |p.heads| && from != to
    requires k < |p.cells[from]| && k < |p.events[from]|
    requires 0 <= p.cells[from][k] < NUM_EVENTS && -1 <= At(p.cells[from], k - 1) < NUM_EVENTS
    ensures Shaped(r)
  {
    var cur, prev := p.cells[from][k], At(p.cells[from], k - 1);
    var next := p.rep[cur].next;
    Pool(Bridged(p.rep, prev, cur, Cell(val, p.heads[to])),
         (if prev == NIL then p.heads[from := next] else p.heads)[to := cur],
         p.owner[cur := to],
         p.cells[from := RemoveAt(p.cells[from], k)][to := [cur] + p.cells[to]],
         p.events[from := RemoveAt(p.events[from], k)][to := [val] + p.events[to]])
  }

  /** Apart from the spare list and list j the two pools hold the same events. */
  predicate SameOtherLists(p: Pool, q: Pool, j: nat) {
    && 0 < |p.events| == |q.events| && j < |p.events|
    && p.events[SPARE := []][j := []] == q.events[SPARE := []][j := []]
  }

  lemma OtherEvents(p: Pool, q: Pool, j: nat, i: nat)
    requires SameOtherLists(p, q, j) && i < |p.events| && i != SPARE && i != j
    ensures q.events[i] == p.events[i]
  {
    assert p.events[i] == p.events[SPARE := []][j := []][i];
    assert q.events[i] == q.events[SPARE := []][j := []][i];
  }

  lemma MovedOtherLists(p: Pool, from: nat, k: nat, to: nat, val: Event)
    requires IsPool(p) && from < |p.heads| && to < |p.heads| && from != to && (from == SPARE || to == SPARE)
    requires k < |p.cells[from]| && k < |p.events[from]|
    requires 0 <= p.cells[from][k] < NUM_EVENTS && -1 <= At(p.cells[from], k - 1) < NUM_EVENTS
    ensures SameOtherLists(p, Moved(p, from, k, to, val), if from == SPARE then to else from)
  {
  }

  /** What the pool invariant says about one list and one of its cells. */
  lemma ListInPool(p: Pool, j: nat)
    requires IsPool(p) && j < |p.heads|
    ensures Listed(p, j)
    ensures |p.events[j]| == |p.cells[j]| && p.heads[j] == At(p.cells[j], 0)
    ensures forall i :: 0 <= i < |p.cells[j]| ==> 0 <= p.cells[j][i] < NUM_EVENTS && p.owner[p.cells[j][i]] == j
  {
    ListedAt(p, |p.heads|, j);
    ListMembers(p.rep, p.owner, j, p.heads[j], p.cells[j], p.events[j]);
  }

  lemma {:induction false} MovedFromList(rep: seq<Cell>, owner: seq<nat>, j: nat, head: int,
                                         cs: seq<int>, s: seq<Event>, k: nat, to: nat, cell: Cell)
    requires |owner| == |rep| && IsList(rep, owner, j, head, cs, s)
    requires k < |cs|
    ensures |s| == |cs| && 0 <= cs[k] < |rep| && -1 <= At(cs, k - 1) < |rep|
    ensures IsList(Bridged(rep, At(cs, k - 1), cs[k], cell), owner[cs[k] := to], j,
                   if k == 0 then rep[cs[0]].next else head, RemoveAt(cs, k), RemoveAt(s, k))
    decreases k
  {
    ListMembers(rep, owner, j, head, cs, s);
    var cs', s' := RemoveAt(cs, k), RemoveAt(s, k);
    if k == 0 {
      assert cs' == cs[1..] && s' == s[1..];
      ListFrame(rep, owner, rep[cs[0] := cell], owner[cs[0] := to], j, rep[head].next, cs[1..], s[1..]);
    } else {
      assert cs'[1..] == RemoveAt(cs[1..], k - 1) && s'[1..] == RemoveAt(s[1..], k - 1);
      MovedFromList(rep, owner, j, rep[head].next, cs[1..], s[1..], k - 1, to, cell);
      MovedFromTail(rep, owner, j, head, cs, s, k, to, cell);
    }
  }

  /** The inductive step: the first cell stays, the rest has been seen to. */
  lemma MovedFromTail(rep: seq<Cell>, owner: seq<nat>, j: nat, head: int, cs: seq<int>, s: seq<Event>,
                      k: nat, to: nat, cell: Cell)
    requires |owner| == |rep| && IsList(rep, owner, j, head, cs, s)
    requires 0 < k < |cs| == |s| && 0 <= cs[k] < |rep| && 0 <= cs[k - 1] < |rep|
    requires IsList(Bridged(rep, At(cs[1..], k - 2), cs[k], cell), owner[cs[k] := to], j,
                    if k == 1 then rep[cs[1]].next else rep[head].next, RemoveAt(cs, k)[1..], RemoveAt(s, k)[1..])
    ensures IsList(Bridged(rep, cs[k - 1], cs[k], cell), owner[cs[k] := to], j, head, RemoveAt(cs, k), RemoveAt(s, k))
  {
    var cs' := RemoveAt(cs, k);
    assert cs'[0] == cs[0] && RemoveAt(s, k)[0] == s[0];
    assert forall x :: x in cs'[1..] ==> x in cs[1..];
    assert cs[k] in cs[1..] && cs[k] != cs[0];
    if k == 1 {
      ListFrame(rep[cs[1] := cell], owner[cs[1] := to], Bridged(rep, cs[0], cs[1], cell), owner[cs[1] := to],
                j, rep[cs[1]].next, cs'[1..], RemoveAt(s, k)[1..]);
    } else {
      assert cs[k - 1] in cs[1..] && cs[k - 1] == cs[1..][k - 2];
    }
  }

  lemma MovedToList(rep: seq<Cell>, owner: seq<nat>, rep': seq<Cell>, owner': seq<nat>,
                    j: nat, head: int, cs: seq<int>, s: seq<Event>, cur: int)
    requires |owner| == |rep| == |owner'| == |rep'| && IsList(rep, owner, j, head, cs, s)
    requires 0 <= cur < |rep| && owner[cur] != j
    requires forall x :: 0 <= x < |rep| && owner[x] == j ==> rep'[x] == rep[x] && owner'[x] == owner[x]
    requires owner'[cur] == j && rep'[cur].next == head
    ensures IsList(rep', owner', j, cur, [cur] + cs, [rep'[cur].val] + s)
  {
    ListMembers(rep, owner, j, head, cs, s);
    OtherList(rep, owner, rep', owner', j, head, cs, s);
    var cs', s' := [cur] + cs, [rep'[cur].val] + s;
    assert cs'[1..] == cs && s'[1..] == s;
  }

  /** Moving a cell keeps the pool invariant: this covers recycling, the return of all
      events and the handler taking a spare cell. */
  lemma MovedIsPool(p: Pool, from: nat, k: nat, to: nat, val: Event)
    requires IsPool(p) && from < |p.heads| && to < |p.heads| && from != to
    requires k < |p.cells[from]|
    ensures k < |p.events[from]|
    ensures 0 <= p.cells[from][k] < NUM_EVENTS && -1 <= At(p.cells[from], k - 1) < NUM_EVENTS
    ensures IsPool(Moved(p, from, k, to, val))
  {
    ListInPool(p, from);
    ListInPool(p, to);
    var r := Moved(p, from, k, to, val);
    var cur := p.cells[from][k];
    assert Listed(r, from) by {
      MovedFromList(p.rep, p.owner, from, p.heads[from], p.cells[from], p.events[from], k, to, Cell(val, p.heads[to]));
    }
    assert Listed(r, to) by {
      MovedToList(p.rep, p.owner, r.rep, r.owner, to, p.heads[to], p.cells[to], p.events[to], cur);
    }
    forall j | 0 <= j < |r.heads|
      ensures Listed(r, j)
    {
      if j != from && j != to {
        ListInPool(p, j);
        OtherList(p.rep, p.owner, r.rep, r.owner, j, p.heads[j], p.cells[j], p.events[j]);
      }
    }
    ListedAll(r, |r.heads|);
    TotalUpdate(p.cells, from, RemoveAt(p.cells[from], k));
    TotalUpdate(p.cells[from := RemoveAt(p.cells[from], k)], to, [cur] + p.cells[to]);
  }

  /** A new component brings an empty list. */
  function WithNewList(p: Pool): Pool {
    p.(heads := p.heads + [NIL], cells := p.cells + [[]], events := p.events + [[]])
  }

  lemma NewListIsPool(p: Pool)
    requires IsPool(p)
    ensures IsPool(WithNewList(p))
  {
    var r := WithNewList(p);
    forall j | 0 <= j < |r.heads|
      ensures Listed(r, j)
    {
      if j < |p.heads| {
        ListInPool(p, j);
      }
    }
    ListedAll(r, |r.heads|);
    TotalSnoc(p.cells, []);
  }

  // ---- Conservation ----

  function Elements(cs: seq<int>): (r: set<int>)
    ensures forall x :: x in r <==> x in cs
  {
    set x | x in cs
  }

  lemma {:induction false} ElementsCount(cs: seq<int>)
    requires forall i, j :: 0 <= i < j < |cs| ==> cs[i] != cs[j]
    ensures |Elements(cs)| == |cs|
  {
    if cs != [] {
      ElementsCount(cs[1..]);
      assert Elements(cs) == {cs[0]} + Elements(cs[1..]);
      assert cs[0] !in cs[1..];
    }
  }

  function AllElements(css: seq<seq<int>>): set<int> {
    if css == [] then {} else Elements(css[0]) + AllElements(css[1..])
  }

  lemma {:induction false} AllElementsCount(p: Pool, j: nat)
    requires IsPool(p) && j <= |p.heads|
    ensures |AllElements(p.cells[j..])| == Total(p.cells[j..])
    ensures forall x :: x in AllElements(p.cells[j..]) ==>
              0 <= x < NUM_EVENTS && j <= p.owner[x] < |p.heads| && x in p.cells[p.owner[x]]
    decreases |p.heads| - j
  {
    if j < |p.heads| {
      AllElementsCount(p, j + 1);
      ListInPool(p, j);
      ListAcyclic(p.rep, p.owner, j, p.heads[j], p.cells[j], p.events[j]);
      ElementsCount(p.cells[j]);
      assert p.cells[j..][1..] == p.cells[j + 1..];
      assert Elements(p.cells[j]) !! AllElements(p.cells[j + 1..]);
    }
  }

  lemma {:induction false} FullSet(s: set<int>, n: nat)
    requires |s| == n && forall x :: x in s ==> 0 <= x < n
    ensures forall x :: 0 <= x < n ==> x in s
  {
    if n > 0 {
      if n - 1 in s {
        FullSet(s - {n - 1}, n - 1);
      } else {
        SmallSet(s, n - 1);
      }
    }
  }

  lemma {:induction false} SmallSet(s: set<int>, n: nat)
    requires forall x :: x in s ==> 0 <= x < n
    ensures |s| <= n
  {
    if n == 0 {
      assert forall x :: x !in s;
      assert s == {};
    } else {
      SmallSet(s - {n - 1}, n - 1);
      assert s <= s - {n - 1} + {n - 1};
    }
  }

  /** Every one of the NUM_EVENTS cells is in exactly one list, and there only once. */
  lemma PoolIsPartitioned(p: Pool, x: nat)
    requires IsPool(p) && x < 100
    ensures exists j :: 0 <= j < |p.heads| && x in p.cells[j]
    ensures forall j, j' :: 0 <= j < |p.heads| && 0 <= j' < |p.heads| && x in p.cells[j] && x in p.cells[j'] ==> j == j'
    ensures forall j :: 0 <= j < |p.heads| && x in p.cells[j] ==> multiset(p.cells[j])[x] == 1
  {
    AllElementsCount(p, 0);
    assert p.cells[0..] == p.cells;
    FullSet(AllElements(p.cells), NUM_EVENTS);
    assert x in p.cells[p.owner[x]];
    forall j | 0 <= j < |p.heads| && x in p.cells[j]
      ensures j == p.owner[x] && multiset(p.cells[j])[x] == 1
    {
      ListInPool(p, j);
      ListAcyclic(p.rep, p.owner, j, p.heads[j], p.cells[j], p.events[j]);
      CountOnce(p.cells[j], x);
    }
  }

  lemma CountOnce(cs: seq<int>, x: int)
    requires x in cs && forall i, j :: 0 <= i < j < |cs| ==> cs[i] != cs[j]
    ensures multiset(cs)[x] == 1
  {
    var i :| 0 <= i < |cs| && cs[i] == x;
    assert cs == cs[..i] + [x] + cs[i + 1..];
    assert x !in cs[..i] && x !in cs[i + 1..];
  }
}

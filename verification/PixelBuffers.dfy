/** The ring of pixel buffers between the GL thread and the analysis thread: two counting
    semaphores, one index each, and no lock.  The threads interleave in any way, one
    semaphore operation, index update or image row at a time. */
module PixelBuffers {

  datatype Kind = Ball | Field
  type Row = seq<char>
  datatype Picture = Picture(kind: Kind, rows: seq<Row>)

  // The GL thread: idle, past its semaphore wait, copying row by row into its slot.
  datatype Sender =
    | Resting
    | Claiming(image: Picture)
    | Copying(slot: nat, image: Picture, row: nat)

  // What the analysis of one buffer has looked at: any rows, in any order, any number of times.
  datatype Analysis = Analysis(kind: Kind, seen: seq<(nat, Row)>)

  datatype Analyser =
    | Listening
    | Taking
    | Analysing(slot: nat, work: Analysis)

  datatype State = State(slots: seq<Picture>, emptyCount: nat, fullCount: nat,
                         nextEmptyBuffer: nat, nextFullBuffer: nat,
                         sender: Sender, analyser: Analyser,
                         sent: seq<Picture>, analysed: seq<Analysis>)

  datatype Step =
    | WaitEmpty(image: Picture)
    | Claim
    | CopyRow
    | LockFails
    | PostFull
    | WaitFull
    | Take
    | ReadRow(row: nat)
    | PostEmpty

  /** The index after i. */
  function Next(i: nat, n: nat): nat {
    if i + 1 == n then 0 else i + 1
  }

  predicate Enabled(s: State, step: Step, height: nat) {
    match step
    case WaitEmpty(image) => s.sender.Resting? && s.emptyCount > 0 && |image.rows| == height
    case Claim => s.sender.Claiming?
    case CopyRow => s.sender.Copying? && s.sender.row < height
    case LockFails => s.sender.Copying? && s.sender.row == 0
    case PostFull => s.sender.Copying? && s.sender.row == height
    case WaitFull => s.analyser.Listening? && s.fullCount > 0
    case Take => s.analyser.Taking?
    case ReadRow(row) => s.analyser.Analysing? && row < height
    case PostEmpty => s.analyser.Analysing?
  }

  /** The indices and buffers a step touches exist: the code does not check them. */
  predicate InBounds(s: State, height: nat) {
    && s.nextEmptyBuffer < |s.slots| && s.nextFullBuffer < |s.slots|
    && (forall i :: 0 <= i < |s.slots| ==> |s.slots[i].rows| == height)
    && (s.sender.Claiming? ==> |s.sender.image.rows| == height)
    && (s.sender.Copying? ==> s.sender.slot < |s.slots| && |s.sender.image.rows| == height)
    && (s.analyser.Analysing? ==> s.analyser.slot < |s.slots|)
  }

  /** One step.  When the readout texture cannot be locked nothing is copied, and the slot is
      sent as it is, under its new kind. */
  function Apply(s: State, step: Step, height: nat): State
    requires InBounds(s, height) && Enabled(s, step, height)
  {
    var n := |s.slots|;
    match step
    case WaitEmpty(image) => s.(emptyCount := s.emptyCount - 1, sender := Claiming(image))
    case Claim =>
      var i, image := s.nextEmptyBuffer, s.sender.image;
      s.(slots := s.slots[i := s.slots[i].(kind := image.kind)],
         nextEmptyBuffer := Next(i, n), sender := Copying(i, image, 0))
    case CopyRow =>
      var i, image, row := s.sender.slot, s.sender.image, s.sender.row;
      s.(slots := s.slots[i := s.slots[i].(rows := s.slots[i].rows[row := image.rows[row]])],
         sender := Copying(i, image, row + 1))
    case LockFails => s.(sender := Copying(s.sender.slot, s.slots[s.sender.slot], height))
    case PostFull => s.(fullCount := s.fullCount + 1, sender := Resting, sent := s.sent + [s.sender.image])
    case WaitFull => s.(fullCount := s.fullCount - 1, analyser := Taking)
    case Take =>
      var i := s.nextFullBuffer;
      s.(nextFullBuffer := Next(i, n), analyser := Analysing(i, Analysis(s.slots[i].kind, [])))
    case ReadRow(row) =>
      var i, work := s.analyser.slot, s.analyser.work;
      s.(analyser := Analysing(i, work.(seen := work.seen + [(row, s.slots[i].rows[row])])))
    case PostEmpty =>
      s.(emptyCount := s.emptyCount + 1, analyser := Listening, analysed := s.analysed + [s.analyser.work])
  }

  // ---- The invariant ----

  function Held(s: State): nat {
    (if s.sender.Resting? then 0 else 1) + (if s.analyser.Listening? then 0 else 1)
  }

  /** Images sent and not yet done with. */
  function Lag(s: State): int {
    |s.sent| - |s.analysed|
  }

  /** The slot of the first of them. */
  function First(s: State): nat {
    if s.analyser.Analysing? then s.analyser.slot else s.nextFullBuffer
  }

  /** The d-th slot from first on. */
  function Ring(first: nat, d: int, n: nat): int {
    if first + d < n then first + d else first + d - n
  }

  /** The slots from first on hold what has been sent, in order. */
  ghost predicate Queued(slots: seq<Picture>, first: nat, sent: seq<Picture>, done: nat) {
    && first < |slots| && done <= |sent| <= done + |slots|
    && forall d {:trigger Ring(first, d, |slots|)} :: 0 <= d < |sent| - done ==>
         slots[Ring(first, d, |slots|)] == sent[done + d]
  }

  /** The counting part: semaphores and held slots account for every slot. */
  predicate Counted(s: State) {
    && s.emptyCount + s.fullCount + Held(s) == |s.slots|
    && Lag(s) == s.fullCount + if s.analyser.Listening? then 0 else 1
  }

  /** The index part: where the next slots are. */
  predicate Indexed(s: State, height: nat) {
    && InBounds(s, height)
    && (s.analyser.Analysing? ==> s.nextFullBuffer == Next(s.analyser.slot, |s.slots|))
    && 0 <= Lag(s) <= |s.slots|
    && if s.sender.Copying?
       then && Lag(s) < |s.slots| && s.sender.slot == Ring(First(s), Lag(s), |s.slots|)
            && s.nextEmptyBuffer == Next(s.sender.slot, |s.slots|)
       else s.nextEmptyBuffer == Ring(First(s), Lag(s), |s.slots|)
  }

  /** What analysis and image have in common: the kind and every row looked at. */
  predicate Sees(a: Analysis, image: Picture) {
    && a.kind == image.kind
    && forall j :: 0 <= j < |a.seen| ==> a.seen[j].0 < |image.rows| && a.seen[j].1 == image.rows[a.seen[j].0]
  }

  /** The contents part: waiting slots hold what was sent, in order. */
  ghost predicate Stocked(s: State, height: nat)
    requires Indexed(s, height)
  {
    && (forall i :: 0 <= i < |s.sent| ==> |s.sent[i].rows| == height)
    && Queued(s.slots, First(s), s.sent, |s.analysed|)
    && (s.sender.Copying? ==>
          && s.sender.row <= height
          && s.slots[s.sender.slot].kind == s.sender.image.kind
          && forall r :: 0 <= r < s.sender.row ==> s.slots[s.sender.slot].rows[r] == s.sender.image.rows[r])
    && (s.analyser.Analysing? ==> Lag(s) > 0 && Sees(s.analyser.work, s.sent[|s.analysed|]))
    && (forall i :: 0 <= i < |s.analysed| ==> Sees(s.analysed[i], s.sent[i]))
  }

  ghost predicate Inv(s: State, height: nat) {
    Counted(s) && Indexed(s, height) && Stocked(s, height)
  }

  // ---- Every step keeps the invariant ----

  /** Writing to the slot behind the queue does not touch the queue. */
  lemma QueuedUpdate(slots: seq<Picture>, first: nat, sent: seq<Picture>, done: nat, i: nat, image: Picture)
    requires Queued(slots, first, sent, done) && |sent| - done < |slots|
    requires i == Ring(first, |sent| - done, |slots|) && i < |slots|
    ensures Queued(slots[i := image], first, sent, done)
  {
    forall d | 0 <= d < |sent| - done
      ensures slots[i := image][Ring(first, d, |slots|)] == sent[done + d]
    {
      assert Ring(first, d, |slots|) != i;
    }
  }

  lemma QueuedPush(slots: seq<Picture>, first: nat, sent: seq<Picture>, done: nat, image: Picture)
    requires Queued(slots, first, sent, done) && |sent| - done < |slots|
    requires slots[Ring(first, |sent| - done, |slots|)] == image
    ensures Queued(slots, first, sent + [image], done)
  {
    forall d | 0 <= d < |sent| + 1 - done
      ensures slots[Ring(first, d, |slots|)] == (sent + [image])[done + d]
    {
      if d < |sent| - done {
        assert slots[Ring(first, d, |slots|)] == sent[done + d];
      }
    }
  }

  lemma QueuedPop(slots: seq<Picture>, first: nat, sent: seq<Picture>, done: nat)
    requires Queued(slots, first, sent, done) && done < |sent|
    ensures Queued(slots, Next(first, |slots|), sent, done + 1)
    ensures slots[first] == sent[done]
  {
    assert Ring(first, 0, |slots|) == first;
    forall d | 0 <= d < |sent| - done - 1
      ensures slots[Ring(Next(first, |slots|), d, |slots|)] == sent[done + 1 + d]
    {
      assert Ring(Next(first, |slots|), d, |slots|) == Ring(first, d + 1, |slots|);
    }
  }

  lemma ClaimKeepsInv(s: State, height: nat)
    requires Inv(s, height) && Enabled(s, Claim, height)
    ensures Inv(Apply(s, Claim, height), height)
  {
    var i, image := s.nextEmptyBuffer, s.sender.image;
    QueuedUpdate(s.slots, First(s), s.sent, |s.analysed|, i, s.slots[i].(kind := image.kind));
  }

  lemma CopyRowKeepsInv(s: State, height: nat)
    requires Inv(s, height) && Enabled(s, CopyRow, height)
    ensures Inv(Apply(s, CopyRow, height), height)
  {
    var i, image, row := s.sender.slot, s.sender.image, s.sender.row;
    var rows := s.slots[i].rows[row := image.rows[row]];
    QueuedUpdate(s.slots, First(s), s.sent, |s.analysed|, i, s.slots[i].(rows := rows));
  }

  lemma PostFullKeepsInv(s: State, height: nat)
    requires Inv(s, height) && Enabled(s, PostFull, height)
    ensures Inv(Apply(s, PostFull, height), height)
  {
    var i, image := s.sender.slot, s.sender.image;
    assert s.slots[i].rows == image.rows;
    QueuedPush(s.slots, First(s), s.sent, |s.analysed|, image);
  }

  lemma AnalyserKeepsInv(s: State, step: Step, height: nat)
    requires Inv(s, height) && Enabled(s, step, height)
    requires step.WaitFull? || step.Take? || step.ReadRow? || step.PostEmpty?
    ensures Inv(Apply(s, step, height), height)
  {
    if Lag(s) > 0 {
      QueuedPop(s.slots, First(s), s.sent, |s.analysed|);
    }
  }

  lemma StepKeepsInv(s: State, step: Step, height: nat)
    requires Inv(s, height) && Enabled(s, step, height)
    ensures Inv(Apply(s, step, height), height)
  {
    match step
    case WaitEmpty(_) =>
    case Claim => ClaimKeepsInv(s, height);
    case CopyRow => CopyRowKeepsInv(s, height);
    case LockFails =>
    case PostFull => PostFullKeepsInv(s, height);
    case _ => AnalyserKeepsInv(s, step, height);
  }

  // ---- Whole runs ----

  /** n buffers of any contents, nothing sent. */
  ghost predicate Initial(s: State, n: nat, height: nat) {
    && n > 0
    && |s.slots| == n && (forall i :: 0 <= i < n ==> |s.slots[i].rows| == height)
    && s == State(s.slots, n, 0, 0, 0, Resting, Listening, [], [])
  }

  ghost predicate IsRun(s: State, steps: seq<Step>, end: State, height: nat)
    decreases |steps|
  {
    if steps == [] then s == end
    else
      && InBounds(s, height) && Enabled(s, steps[0], height)
      && IsRun(Apply(s, steps[0], height), steps[1..], end, height)
  }

  lemma {:induction false} RunKeepsInv(s: State, steps: seq<Step>, end: State, height: nat)
    requires Inv(s, height) && IsRun(s, steps, end, height)
    ensures Inv(end, height) && |end.slots| == |s.slots|
    decreases |steps|
  {
    if steps != [] {
      StepKeepsInv(s, steps[0], height);
      RunKeepsInv(Apply(s, steps[0], height), steps[1..], end, height);
    }
  }

  /** In every interleaving the slot being filled is not the slot being analysed, nor one that
      waits to be, and semaphore counts plus held slots make n. */
  lemma SlotsAreSafe(init: State, n: nat, steps: seq<Step>, s: State, height: nat)
    requires Initial(init, n, height) && IsRun(init, steps, s, height)
    ensures s.emptyCount + s.fullCount + Held(s) == n
    ensures s.sender.Copying? && s.analyser.Analysing? ==> s.sender.slot != s.analyser.slot
    ensures s.sender.Copying? ==> forall d :: 0 <= d < Lag(s) ==> s.sender.slot != Ring(First(s), d, n)
  {
    RunKeepsInv(init, steps, s, height);
    if s.sender.Copying? {
      forall d | 0 <= d < Lag(s)
        ensures s.sender.slot != Ring(First(s), d, n)
      {
      }
      assert s.analyser.Analysing? ==> Ring(First(s), 0, n) == s.analyser.slot;
    }
  }

  /** In every interleaving the k-th analysis is of the k-th image sent: same kind, and every
      row it ever looked at was that image's; and the analysis lags by at most n images. */
  lemma AnalysesAreFifo(init: State, n: nat, steps: seq<Step>, s: State, height: nat)
    requires Initial(init, n, height) && IsRun(init, steps, s, height)
    ensures |s.analysed| <= |s.sent| <= |s.analysed| + n
    ensures forall k :: 0 <= k < |s.analysed| ==> Sees(s.analysed[k], s.sent[k])
    ensures s.analyser.Analysing? ==> |s.analysed| < |s.sent| && Sees(s.analyser.work, s.sent[|s.analysed|])
  {
    RunKeepsInv(init, steps, s, height);
  }

  /** No step ever runs outside the ring or a buffer, and the threads never block each other:
      one of them can always go on. */
  lemma NeverStuck(init: State, n: nat, steps: seq<Step>, s: State, image: Picture, height: nat)
    requires Initial(init, n, height) && IsRun(init, steps, s, height) && |image.rows| == height
    ensures InBounds(s, height)
    ensures exists step :: Enabled(s, step, height) && (step.WaitEmpty? ==> step.image == image)
  {
    RunKeepsInv(init, steps, s, height);
    var step :=
      if s.analyser.Taking? then Take
      else if s.analyser.Analysing? then PostEmpty
      else if s.fullCount > 0 then WaitFull
      else match s.sender
           case Resting => WaitEmpty(image)
           case Claiming(_) => Claim
           case Copying(_, _, row) => if row < height then CopyRow else PostFull;
    assert Enabled(s, step, height);
  }

  // ---- The threads' own code ----

  lemma {:induction false} RunSnoc(s: State, steps: seq<Step>, mid: State, step: Step, height: nat)
    requires IsRun(s, steps, mid, height) && InBounds(mid, height) && Enabled(mid, step, height)
    ensures IsRun(s, steps + [step], Apply(mid, step, height), height)
    decreases |steps|
  {
    if steps == [] {
      assert steps + [step] == [step] && [step][1..] == [];
    } else {
      assert (steps + [step])[1..] == steps[1..] + [step];
      RunSnoc(Apply(s, steps[0], height), steps[1..], mid, step, height);
    }
  }

  function Repeated(step: Step, n: nat): (r: seq<Step>)
    ensures |r| == n
  {
    if n == 0 then [] else Repeated(step, n - 1) + [step]
  }

  function Reading(n: nat): (r: seq<Step>)
    ensures |r| == n
  {
    if n == 0 then [] else Reading(n - 1) + [ReadRow(n - 1)]
  }

  /** The steps of one call of send_buffer_to_analysis. */
  function Sending(image: Picture, locked: bool, height: nat): seq<Step> {
    [WaitEmpty(image), Claim] + (if locked then Repeated(CopyRow, height) else [LockFails]) + [PostFull]
  }

  /** The steps of one turn of analysis_thread: the ball is found in two passes over the
      rows, the field in one. */
  function AnalysingOne(kind: Kind, height: nat): seq<Step> {
    [WaitFull, Take] + Reading(height) + (if kind == Ball then Reading(height) else []) + [PostEmpty]
  }

  /** A ball image is gone over twice, a field image once. */
  lemma RowsRead(height: nat)
    ensures |AnalysingOne(Ball, height)| == 2 * height + 3 && |AnalysingOne(Field, height)| == height + 3
  {
  }

  class Pipeline {
    const slots: array<Picture>
    const height: nat
    var semEmptyCount: nat
    var semFullCount: nat
    var nextEmptyBuffer: nat
    var nextFullBuffer: nat
    ghost var sender: Sender
    ghost var analyser: Analyser
    ghost var sent: seq<Picture>
    ghost var analysed: seq<Analysis>

    ghost function Now(): State
      reads this, slots
    {
      State(slots[..], semEmptyCount, semFullCount, nextEmptyBuffer, nextFullBuffer, sender, analyser, sent, analysed)
    }

    constructor (count: nat, height: nat, blank: Picture)
      requires count > 0 && |blank.rows| == height
      ensures this.height == height && fresh(slots) && Initial(Now(), count, height)
    {
      slots, this.height := new Picture[count](_ => blank), height;
      semEmptyCount, semFullCount, nextEmptyBuffer, nextFullBuffer := count, 0, 0, 0;
      sender, analyser, sent, analysed := Resting, Listening, [], [];
    }

    /** send_buffer_to_analysis, undisturbed.  Waiting for an empty buffer is over. */
    method SendBufferToAnalysis(image: Picture, locked: bool)
      requires InBounds(Now(), height) && sender.Resting? && semEmptyCount > 0 && |image.rows| == height
      modifies this, slots
      ensures InBounds(Now(), height)
      ensures IsRun(old(Now()), Sending(image, locked, height), Now(), height)
    {
      ghost var start := Now();
      var claimed := ClaimBuffer(image);
      ghost var steps := [WaitEmpty(image), Claim];
      if locked {
        CopyRows(image, claimed, start, steps);
        steps := steps + Repeated(CopyRow, height);
      } else {
        ghost var s := Now();
        sender := Copying(claimed, slots[claimed], height);
        RunSnoc(start, steps, s, LockFails, height);
        steps := steps + [LockFails];
      }
      NotifyFull(start, steps);
    }

    method ClaimBuffer(image: Picture) returns (claimed: nat)
      requires InBounds(Now(), height) && sender.Resting? && semEmptyCount > 0 && |image.rows| == height
      modifies this`semEmptyCount, this`nextEmptyBuffer, this`sender, slots
      ensures InBounds(Now(), height) && sender == Copying(claimed, image, 0)
      ensures IsRun(old(Now()), [WaitEmpty(image), Claim], Now(), height)
    {
      ghost var start := Now();
      semEmptyCount, sender := semEmptyCount - 1, Claiming(image);
      ghost var s := Now();
      RunSnoc(start, [], start, WaitEmpty(image), height);

      claimed := nextEmptyBuffer;
      slots[claimed] := slots[claimed].(kind := image.kind);
      nextEmptyBuffer := nextEmptyBuffer + 1;
      if nextEmptyBuffer == slots.Length {
        nextEmptyBuffer := 0;
      }
      sender := Copying(claimed, image, 0);
      assert Now() == Apply(s, Claim, height);
      RunSnoc(start, [WaitEmpty(image)], s, Claim, height);
      assert [WaitEmpty(image)] + [Claim] == [WaitEmpty(image), Claim];
    }

    method NotifyFull(ghost start: State, ghost before: seq<Step>)
      requires InBounds(Now(), height) && sender.Copying? && sender.row == height
      requires IsRun(start, before, Now(), height)
      modifies this`semFullCount, this`sender, this`sent
      ensures InBounds(Now(), height)
      ensures IsRun(start, before + [PostFull], Now(), height)
    {
      RunSnoc(start, before, Now(), PostFull, height);
      semFullCount, sender, sent := semFullCount + 1, Resting, sent + [sender.image];
    }

    /** The row-copy loop. */
    method CopyRows(image: Picture, claimed: nat, ghost start: State, ghost before: seq<Step>)
      requires InBounds(Now(), height) && sender == Copying(claimed, image, 0)
      requires IsRun(start, before, Now(), height)
      modifies this`sender, slots
      ensures InBounds(Now(), height) && sender == Copying(claimed, image, height)
      ensures IsRun(start, before + Repeated(CopyRow, height), Now(), height)
    {
      var y := 0;
      assert before + Repeated(CopyRow, 0) == before;
      while y < height
        invariant 0 <= y <= height && sender == Copying(claimed, image, y)
        invariant InBounds(Now(), height)
        invariant IsRun(start, before + Repeated(CopyRow, y), Now(), height)
      {
        ghost var s := Now();
        slots[claimed] := slots[claimed].(rows := slots[claimed].rows[y := image.rows[y]]);
        sender := Copying(claimed, image, y + 1);
        assert Now() == Apply(s, CopyRow, height);
        RunSnoc(start, before + Repeated(CopyRow, y), s, CopyRow, height);
        assert before + Repeated(CopyRow, y + 1) == before + Repeated(CopyRow, y) + [CopyRow];
        y := y + 1;
      }
    }

    /** One turn of analysis_thread, undisturbed.  Waiting for a full buffer is over. */
    method AnalyseNext() returns (kind: Kind)
      requires InBounds(Now(), height) && analyser.Listening? && semFullCount > 0
      modifies this
      ensures InBounds(Now(), height)
      ensures kind == old(slots[nextFullBuffer]).kind
      ensures IsRun(old(Now()), AnalysingOne(kind, height), Now(), height)
    {
      ghost var start := Now();
      var buffer;
      buffer, kind := TakeBuffer();
      ghost var steps := [WaitFull, Take];
      ReadRows(buffer, start, steps);
      steps := steps + Reading(height);
      if kind == Ball {
        ReadRows(buffer, start, steps);
        steps := steps + Reading(height);
      }
      NotifyEmpty(start, steps);
      assert steps + [PostEmpty] == AnalysingOne(kind, height);
    }

    method TakeBuffer() returns (buffer: nat, kind: Kind)
      requires InBounds(Now(), height) && analyser.Listening? && semFullCount > 0
      modifies this`semFullCount, this`nextFullBuffer, this`analyser
      ensures InBounds(Now(), height) && analyser.Analysing? && buffer == analyser.slot
      ensures kind == old(slots[nextFullBuffer]).kind
      ensures IsRun(old(Now()), [WaitFull, Take], Now(), height)
    {
      ghost var start := Now();
      semFullCount, analyser := semFullCount - 1, Taking;
      ghost var s := Now();
      RunSnoc(start, [], start, WaitFull, height);

      buffer := nextFullBuffer;
      kind := slots[buffer].kind;
      nextFullBuffer := nextFullBuffer + 1;
      if nextFullBuffer == slots.Length {
        nextFullBuffer := 0;
      }
      analyser := Analysing(buffer, Analysis(kind, []));
      assert Now() == Apply(s, Take, height);
      RunSnoc(start, [WaitFull], s, Take, height);
      assert [WaitFull] + [Take] == [WaitFull, Take];
    }

    /** One pass over the rows of the buffer being analysed. */
    method ReadRows(buffer: nat, ghost start: State, ghost before: seq<Step>)
      requires InBounds(Now(), height) && analyser.Analysing? && buffer == analyser.slot
      requires IsRun(start, before, Now(), height)
      modifies this`analyser
      ensures InBounds(Now(), height) && analyser.Analysing? && buffer == analyser.slot
      ensures IsRun(start, before + Reading(height), Now(), height)
    {
      var y := 0;
      assert before + Reading(0) == before;
      while y < height
        invariant 0 <= y <= height && analyser.Analysing? && buffer == analyser.slot && InBounds(Now(), height)
        invariant IsRun(start, before + Reading(y), Now(), height)
      {
        ghost var s := Now();
        var row := slots[buffer].rows[y];
        analyser := Analysing(buffer, analyser.work.(seen := analyser.work.seen + [(y, row)]));
        RunSnoc(start, before + Reading(y), s, ReadRow(y), height);
        assert before + Reading(y + 1) == before + Reading(y) + [ReadRow(y)];
        y := y + 1;
      }
    }

    method NotifyEmpty(ghost start: State, ghost before: seq<Step>)
      requires InBounds(Now(), height) && analyser.Analysing? && IsRun(start, before, Now(), height)
      modifies this`semEmptyCount, this`analyser, this`analysed
      ensures InBounds(Now(), height)
      ensures IsRun(start, before + [PostEmpty], Now(), height)
    {
      RunSnoc(start, before, Now(), PostEmpty, height);
      semEmptyCount, analyser, analysed := semEmptyCount + 1, Listening, analysed + [analyser.work];
    }
  }
}

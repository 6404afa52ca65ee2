/** The recorder's segment mode: the encoded stream is cut into files at CONFIG buffers. */
module SegmentRecorder {
  import opened EncoderRing
  import opened Sequences

  // What does not change during a recording.  hasFile: a file name other than "-" was given.
  datatype Settings = Settings(segmentSize: int, segmentWrap: nat, splitWait: bool,
                               inlineMotionVectors: bool, hasFile: bool, hasImvFile: bool)

  // One callback: the buffer, the time in ms, whether opening a file would succeed, and how
  // many of the buffer's bytes the write call takes.
  datatype Input = Input(data: seq<Byte>, config: bool, sideInfo: bool, now: int,
                         opens: bool, opensImv: bool, taken: nat)

  predicate Possible(x: Input) {
    x.now >= 0 && x.taken <= |x.data|
  }

  // files and imvFiles are the contents of the files opened, in order of opening; the last
  // one is the one being written.
  datatype Recording = Recording(baseTime: int, segmentNumber: int, splitNow: bool, abort: bool,
                                 files: seq<seq<Byte>>, imvFiles: seq<seq<Byte>>)

  predicate Open(s: Recording) {
    s.files != [] && s.imvFiles != []
  }

  function Appended(files: seq<seq<Byte>>, data: seq<Byte>): (r: seq<seq<Byte>>)
    requires files != []
    ensures |r| == |files|
  {
    files[|files| - 1 := files[|files| - 1] + data]
  }

  /** The break condition. */
  predicate Splits(cfg: Settings, s: Recording, x: Input) {
    var base := if s.baseTime == -1 then x.now else s.baseTime;
    x.config && ((cfg.segmentSize != 0 && x.now > base + cfg.segmentSize) || (cfg.splitWait && s.splitNow))
  }

  function Split(cfg: Settings, s: Recording, x: Input): (r: Recording)
    requires Open(s)
    ensures Open(r)
  {
    var number := s.segmentNumber + 1;
    s.(baseTime := x.now,
       splitNow := false,
       segmentNumber := if cfg.segmentWrap != 0 && number > cfg.segmentWrap then 1 else number,
       files := if cfg.hasFile && x.opens then s.files + [[]] else s.files,
       imvFiles := if cfg.hasImvFile && x.opensImv then s.imvFiles + [[]] else s.imvFiles)
  }

  function Stored(cfg: Settings, s: Recording, x: Input): (r: Recording)
    requires Open(s) && Possible(x)
    ensures Open(r)
  {
    if x.sideInfo then
      if cfg.inlineMotionVectors
      then s.(imvFiles := Appended(s.imvFiles, x.data[..x.taken]), abort := s.abort || x.taken != |x.data|)
      else s
    else s.(files := Appended(s.files, x.data[..x.taken]), abort := s.abort || x.taken != |x.data|)
  }

  function Step(cfg: Settings, s: Recording, x: Input): (r: Recording)
    requires Open(s) && Possible(x)
    ensures Open(r)
  {
    var s0 := if s.baseTime == -1 then s.(baseTime := x.now) else s;
    Stored(cfg, if Splits(cfg, s, x) then Split(cfg, s0, x) else s0, x)
  }

  // ---- The callback ----

  class Recorder {
    const cfg: Settings
    var baseTime: int
    var segmentNumber: int
    var splitNow: bool
    var abort: bool
    var files: seq<seq<Byte>>
    var imvFiles: seq<seq<Byte>>

    ghost function State(): Recording
      reads this
    {
      Recording(baseTime, segmentNumber, splitNow, abort, files, imvFiles)
    }

    constructor (cfg: Settings, segmentNumber: int)
      ensures this.cfg == cfg && State() == Recording(-1, segmentNumber, false, false, [[]], [[]])
    {
      this.cfg, this.segmentNumber := cfg, segmentNumber;
      baseTime, splitNow, abort, files, imvFiles := -1, false, false, [[]], [[]];
    }

    /** main asks for a split at the next CONFIG buffer. */
    method RequestSplit()
      modifies this`splitNow
      ensures State() == old(State()).(splitNow := true)
    {
      splitNow := true;
    }

    /** Begin new files.  A file that cannot be opened leaves the old one in use; nothing that
        was written moves or is lost. */
    method BreakSegment(x: Input)
      requires Open(State())
      modifies this
      ensures State() == Split(cfg, old(State()), x)
      ensures Joined(files) == Joined(old(files)) && Joined(imvFiles) == Joined(old(imvFiles))
      ensures old(files) <= files && (!x.opens ==> files == old(files))
      ensures old(imvFiles) <= imvFiles && (!x.opensImv ==> imvFiles == old(imvFiles))
      ensures cfg.segmentWrap > 0 && 1 <= old(segmentNumber) <= cfg.segmentWrap ==>
                1 <= segmentNumber <= cfg.segmentWrap
      ensures forall y: Input :: x.now >= 0 && Splits(cfg, State(), y) ==>
                cfg.segmentSize != 0 && y.now > x.now + cfg.segmentSize
    {
      JoinedOpened(files);
      JoinedOpened(imvFiles);
      baseTime := x.now;
      splitNow := false;
      segmentNumber := segmentNumber + 1;
      if cfg.segmentWrap != 0 && segmentNumber > cfg.segmentWrap {
        segmentNumber := 1;
      }
      if cfg.hasFile && x.opens {
        files := files + [[]];
      }
      if cfg.hasImvFile && x.opensImv {
        imvFiles := imvFiles + [[]];
      }
    }

    method WriteBuffer(x: Input)
      requires Open(State()) && Possible(x) && |x.data| > 0
      modifies this`files, this`imvFiles, this`abort
      ensures State() == Stored(cfg, old(State()), x)
    {
      var bytesWritten := |x.data|;
      if x.sideInfo {
        if cfg.inlineMotionVectors {
          imvFiles := Appended(imvFiles, x.data[..x.taken]);
          bytesWritten := x.taken;
        }
      } else {
        files := Appended(files, x.data[..x.taken]);
        bytesWritten := x.taken;
      }
      if bytesWritten != |x.data| {
        abort := true;
      }
    }

    /** encoder_buffer_callback in segment mode. */
    method EncoderCallback(x: Input)
      requires Open(State()) && Possible(x)
      modifies this
      ensures State() == Step(cfg, old(State()), x)
    {
      if baseTime == -1 {
        baseTime := x.now;
      }
      if x.config && ((cfg.segmentSize != 0 && x.now > baseTime + cfg.segmentSize) || (cfg.splitWait && splitNow)) {
        BreakSegment(x);
      }
      if |x.data| > 0 {
        WriteBuffer(x);
      } else {
        StoredNothing(cfg, State(), x);
      }
    }
  }

  lemma StoredNothing(cfg: Settings, s: Recording, x: Input)
    requires Open(s) && Possible(x) && x.data == []
    ensures Stored(cfg, s, x) == s
  {
    var files, imvFiles := s.files, s.imvFiles;
    assert files[|files| - 1] + [] == files[|files| - 1];
    assert imvFiles[|imvFiles| - 1] + [] == imvFiles[|imvFiles| - 1];
  }

  // ---- Whole recordings ----

  datatype Event = Buffer(x: Input) | SplitRequest

  function Next(cfg: Settings, s: Recording, e: Event): (r: Recording)
    requires Open(s) && (e.Buffer? ==> Possible(e.x))
    ensures Open(r)
  {
    match e
    case Buffer(x) => Step(cfg, s, x)
    case SplitRequest => s.(splitNow := true)
  }

  predicate AllPossible(es: seq<Event>) {
    forall i :: 0 <= i < |es| && es[i].Buffer? ==> Possible(es[i].x)
  }

  function Run(cfg: Settings, s: Recording, es: seq<Event>): (r: Recording)
    requires Open(s) && AllPossible(es)
    ensures Open(r)
    decreases |es|
  {
    if es == [] then s else Run(cfg, Next(cfg, s, es[0]), es[1..])
  }

  /** The bytes of the encoded stream the write calls took, in arrival order. */
  function Received(es: seq<Event>): seq<Byte>
    requires AllPossible(es)
  {
    if es == [] then [] else Piece(es[0]) + Received(es[1..])
  }

  function Joined(files: seq<seq<Byte>>): seq<Byte> {
    if files == [] then [] else files[0] + Joined(files[1..])
  }

  lemma {:induction false} JoinedAppended(files: seq<seq<Byte>>, data: seq<Byte>)
    requires files != []
    ensures Joined(Appended(files, data)) == Joined(files) + data
  {
    var r := Appended(files, data);
    if |files| == 1 {
      assert r[1..] == [] && files[1..] == [];
      assert Joined(r) == files[0] + data && Joined(files) == files[0];
    } else {
      JoinedAppended(files[1..], data);
      assert r[0] == files[0] && r[1..] == Appended(files[1..], data);
      assert files[0] + (Joined(files[1..]) + data) == (files[0] + Joined(files[1..])) + data;
    }
  }

  lemma {:induction false} JoinedOpened(files: seq<seq<Byte>>)
    ensures Joined(files + [[]]) == Joined(files)
  {
    var r := files + [[]];
    if files == [] {
      assert r[1..] == [];
    } else {
      JoinedOpened(files[1..]);
      assert r[1..] == files[1..] + [[]];
    }
  }

  function Piece(e: Event): seq<Byte>
    requires e.Buffer? ==> Possible(e.x)
  {
    if e.Buffer? && !e.x.sideInfo then e.x.data[..e.x.taken] else []
  }

  lemma NextConserves(cfg: Settings, s: Recording, e: Event)
    requires Open(s) && (e.Buffer? ==> Possible(e.x))
    ensures Joined(Next(cfg, s, e).files) == Joined(s.files) + Piece(e)
  {
    var files := if e.Buffer? && Splits(cfg, s, e.x) && cfg.hasFile && e.x.opens then s.files + [[]] else s.files;
    JoinedOpened(s.files);
    if Piece(e) == [] && Next(cfg, s, e).files == files {
      assert Joined(s.files) + [] == Joined(s.files);
    } else {
      JoinedAppended(files, Piece(e));
    }
  }

  /** The segment files, in the order in which they were opened, concatenate to exactly the
      encoded stream as it arrived, whether or not files could be opened. */
  lemma {:induction false} FilesConserveStream(cfg: Settings, s: Recording, es: seq<Event>)
    requires Open(s) && AllPossible(es)
    ensures Joined(Run(cfg, s, es).files) == Joined(s.files) + Received(es)
    decreases |es|
  {
    if es == [] {
      assert Joined(s.files) + [] == Joined(s.files);
    } else {
      var s' := Next(cfg, s, es[0]);
      NextConserves(cfg, s, es[0]);
      FilesConserveStream(cfg, s', es[1..]);
      Regrouped(Joined(s.files), Piece(es[0]), Received(es[1..]));
    }
  }

  /** A write that was cut short is never forgotten: no abort means nothing is missing. */
  lemma {:induction false} NoAbortNoLoss(cfg: Settings, s: Recording, es: seq<Event>)
    requires Open(s) && AllPossible(es) && !Run(cfg, s, es).abort
    ensures !s.abort
    ensures forall i :: 0 <= i < |es| && es[i].Buffer? && !es[i].x.sideInfo ==> es[i].x.taken == |es[i].x.data|
    decreases |es|
  {
    if es != [] {
      NoAbortNoLoss(cfg, Next(cfg, s, es[0]), es[1..]);
    }
  }

  /** The whole data of a buffer that belongs to the stream. */
  function Data(e: Event): seq<Byte> {
    if e.Buffer? && !e.x.sideInfo then e.x.data else []
  }

  function Stream(es: seq<Event>): seq<Byte> {
    if es == [] then [] else Data(es[0]) + Stream(es[1..])
  }

  lemma {:induction false} ReceivedWhole(es: seq<Event>)
    requires AllPossible(es)
    requires forall i :: 0 <= i < |es| && es[i].Buffer? && !es[i].x.sideInfo ==> es[i].x.taken == |es[i].x.data|
    ensures Received(es) == Stream(es)
  {
    if es != [] {
      ReceivedWhole(es[1..]);
      assert Piece(es[0]) == Data(es[0]);
    }
  }

  /** Without an abort the files concatenate to the whole encoded stream. */
  lemma NoAbortWholeStream(cfg: Settings, number: int, es: seq<Event>)
    requires AllPossible(es) && !Run(cfg, Fresh(number), es).abort
    ensures Joined(Run(cfg, Fresh(number), es).files) == Stream(es)
  {
    FilesConserveStream(cfg, Fresh(number), es);
    NoAbortNoLoss(cfg, Fresh(number), es);
    ReceivedWhole(es);
    assert Joined([[]]) == [];
  }

  /** A buffer that is to be written and that the write call did not take whole. */
  predicate CutShort(cfg: Settings, e: Event) {
    e.Buffer? && (!e.x.sideInfo || cfg.inlineMotionVectors) && e.x.taken != |e.x.data|
  }

  /** An abort is raised exactly when a write is cut short. */
  lemma {:induction false} AbortMeans(cfg: Settings, s: Recording, es: seq<Event>)
    requires Open(s) && AllPossible(es)
    ensures Run(cfg, s, es).abort <==> s.abort || exists i :: 0 <= i < |es| && CutShort(cfg, es[i])
    decreases |es|
  {
    if es != [] {
      AbortMeans(cfg, Next(cfg, s, es[0]), es[1..]);
      assert forall i :: 1 <= i < |es| ==> es[i] == es[1..][i - 1];
      assert forall i :: 0 <= i < |es[1..]| ==> es[1..][i] == es[i + 1];
    }
  }

  /** The motion vectors the write calls took, if they are wanted at all. */
  function Vectors(cfg: Settings, es: seq<Event>): seq<Byte>
    requires AllPossible(es)
  {
    if es == [] then []
    else VectorPiece(cfg, es[0]) + Vectors(cfg, es[1..])
  }

  function VectorPiece(cfg: Settings, e: Event): seq<Byte>
    requires e.Buffer? ==> Possible(e.x)
  {
    if e.Buffer? && e.x.sideInfo && cfg.inlineMotionVectors then e.x.data[..e.x.taken] else []
  }

  lemma NextConservesVectors(cfg: Settings, s: Recording, e: Event)
    requires Open(s) && (e.Buffer? ==> Possible(e.x))
    ensures Joined(Next(cfg, s, e).imvFiles) == Joined(s.imvFiles) + VectorPiece(cfg, e)
  {
    var files := if e.Buffer? && Splits(cfg, s, e.x) && cfg.hasImvFile && e.x.opensImv then s.imvFiles + [[]]
                 else s.imvFiles;
    JoinedOpened(s.imvFiles);
    if VectorPiece(cfg, e) == [] && Next(cfg, s, e).imvFiles == files {
      assert Joined(s.imvFiles) + [] == Joined(s.imvFiles);
    } else {
      JoinedAppended(files, VectorPiece(cfg, e));
    }
  }

  /** The motion-vector files conserve the motion vectors in the same way. */
  lemma {:induction false} FilesConserveVectors(cfg: Settings, s: Recording, es: seq<Event>)
    requires Open(s) && AllPossible(es)
    ensures Joined(Run(cfg, s, es).imvFiles) == Joined(s.imvFiles) + Vectors(cfg, es)
    decreases |es|
  {
    if es == [] {
      assert Joined(s.imvFiles) + [] == Joined(s.imvFiles);
    } else {
      NextConservesVectors(cfg, s, es[0]);
      FilesConserveVectors(cfg, Next(cfg, s, es[0]), es[1..]);
      Regrouped(Joined(s.imvFiles), VectorPiece(cfg, es[0]), Vectors(cfg, es[1..]));
    }
  }

  lemma RunSnoc(cfg: Settings, s: Recording, es: seq<Event>, e: Event)
    requires Open(s) && AllPossible(es + [e])
    ensures AllPossible(es) && (e.Buffer? ==> Possible(e.x))
    ensures Run(cfg, s, es + [e]) == Next(cfg, Run(cfg, s, es), e)
    decreases |es|
  {
    assert forall i :: 0 <= i < |es| ==> es[i] == (es + [e])[i];
    assert (es + [e])[|es|] == e;
    if es == [] {
      assert es + [e] == [e] && [e][1..] == [];
    } else {
      assert (es + [e])[1..] == es[1..] + [e];
      RunSnoc(cfg, Next(cfg, s, es[0]), es[1..], e);
    }
  }

  function Fresh(segmentNumber: int): Recording {
    Recording(-1, segmentNumber, false, false, [[]], [[]])
  }

  /** File k begins with a CONFIG buffer: the files before it hold exactly what had arrived
      before that buffer, and its bytes head the file. */
  ghost predicate BeginsAtConfig(files: seq<seq<Byte>>, k: nat, es: seq<Event>)
    requires k < |files| && AllPossible(es)
  {
    exists i :: 0 <= i < |es| && es[i].Buffer? && es[i].x.config
                && Joined(files[..k]) == Received(es[..i]) && Piece(es[i]) <= files[k]
  }

  lemma BeginsAtConfigLater(files: seq<seq<Byte>>, files': seq<seq<Byte>>, k: nat, es: seq<Event>, e: Event)
    requires k < |files| <= |files'| && files'[..k] == files[..k] && files[k] <= files'[k]
    requires AllPossible(es + [e]) && AllPossible(es) && BeginsAtConfig(files, k, es)
    ensures BeginsAtConfig(files', k, es + [e])
  {
    var i :| 0 <= i < |es| && es[i].Buffer? && es[i].x.config
             && Joined(files[..k]) == Received(es[..i]) && Piece(es[i]) <= files[k];
    assert (es + [e])[i] == es[i] && (es + [e])[..i] == es[..i];
  }

  predicate OpensFile(cfg: Settings, s: Recording, e: Event) {
    e.Buffer? && Splits(cfg, s, e.x) && cfg.hasFile && e.x.opens
  }

  /** The files one more event leaves. */
  lemma NextFiles(cfg: Settings, s: Recording, e: Event)
    requires Open(s) && (e.Buffer? ==> Possible(e.x))
    ensures var fs := if OpensFile(cfg, s, e) then s.files + [[]] else s.files;
            Next(cfg, s, e).files == if e.Buffer? && !e.x.sideInfo then Appended(fs, Piece(e)) else fs
  {
  }

  lemma AppendedKeeps(files: seq<seq<Byte>>, data: seq<Byte>, k: nat)
    requires k < |files|
    ensures Appended(files, data)[..k] == files[..k] && files[k] <= Appended(files, data)[k]
  {
  }

  /** The files there were stay, the last perhaps longer. */
  lemma OldFile(cfg: Settings, s: Recording, e: Event, k: nat)
    requires Open(s) && (e.Buffer? ==> Possible(e.x)) && k < |s.files|
    ensures var files := Next(cfg, s, e).files;
            k < |s.files| <= |files| && files[..k] == s.files[..k] && s.files[k] <= files[k]
  {
    NextFiles(cfg, s, e);
    var fs := if OpensFile(cfg, s, e) then s.files + [[]] else s.files;
    assert fs[..k] == s.files[..k] && fs[k] == s.files[k];
    AppendedKeeps(fs, Piece(e), k);
  }

  /** A new file begins with the CONFIG buffer just come in. */
  lemma NewFile(cfg: Settings, s: Recording, e: Event, k: nat)
    requires Open(s) && (e.Buffer? ==> Possible(e.x)) && |s.files| <= k < |Next(cfg, s, e).files|
    ensures var files := Next(cfg, s, e).files;
            k == |s.files| && e.Buffer? && e.x.config && files[..k] == s.files && files[k] == Piece(e)
  {
    NextFiles(cfg, s, e);
    var fs := s.files + [[]];
    assert fs[..k] == s.files && fs[k] == [];
    AppendedKeeps(fs, Piece(e), k);
    assert [] + Piece(e) == Piece(e);
  }

  lemma BeginsHere(files: seq<seq<Byte>>, k: nat, es: seq<Event>, e: Event)
    requires k < |files| && AllPossible(es + [e]) && AllPossible(es) && e.Buffer? && Possible(e.x) && e.x.config
    requires Joined(files[..k]) == Received(es) && files[k] == Piece(e)
    ensures BeginsAtConfig(files, k, es + [e])
  {
    var all := es + [e];
    assert all[|es|] == e && all[..|es|] == es;
  }

  lemma NextBeginsAtConfig(cfg: Settings, s: Recording, es: seq<Event>, e: Event, k: nat)
    requires Open(s) && AllPossible(es + [e]) && AllPossible(es) && (e.Buffer? ==> Possible(e.x))
    requires Joined(s.files) == Received(es) && 1 <= k < |Next(cfg, s, e).files|
    requires k < |s.files| ==> BeginsAtConfig(s.files, k, es)
    ensures BeginsAtConfig(Next(cfg, s, e).files, k, es + [e])
  {
    if k < |s.files| {
      OldFile(cfg, s, e, k);
      BeginsAtConfigLater(s.files, Next(cfg, s, e).files, k, es, e);
    } else {
      NewFile(cfg, s, e, k);
      BeginsHere(Next(cfg, s, e).files, k, es, e);
    }
  }

  /** Every file after the first begins with the CONFIG buffer it was opened for. */
  lemma {:induction false} SegmentsBeginAtConfig(cfg: Settings, number: int, es: seq<Event>)
    requires AllPossible(es)
    ensures var files := Run(cfg, Fresh(number), es).files;
            forall k :: 1 <= k < |files| ==> BeginsAtConfig(files, k, es)
    decreases |es|
  {
    if es != [] {
      var init, e := es[..|es| - 1], es[|es| - 1];
      assert es == init + [e];
      RunSnoc(cfg, Fresh(number), init, e);
      SegmentsBeginAtConfig(cfg, number, init);
      FilesConserveStream(cfg, Fresh(number), init);
      assert Joined([[]]) == [];
      var s := Run(cfg, Fresh(number), init);
      forall k | 1 <= k < |Next(cfg, s, e).files|
        ensures BeginsAtConfig(Next(cfg, s, e).files, k, es)
      {
        NextBeginsAtConfig(cfg, s, init, e, k);
      }
    }
  }

  /** A whole recording by the recorder: what main and the encoder make of it. */
  method RecordAll(cfg: Settings, number: int, es: seq<Event>) returns (r: Recorder)
    requires AllPossible(es)
    ensures r.cfg == cfg && r.State() == Run(cfg, Fresh(number), es)
    ensures Joined(r.files) == Received(es) && (!r.abort ==> Joined(r.files) == Stream(es))
  {
    r := new Recorder(cfg, number);
    var i := 0;
    while i < |es|
      invariant 0 <= i <= |es| && fresh(r) && r.cfg == cfg
      invariant Open(r.State()) && r.State() == Run(cfg, Fresh(number), es[..i])
    {
      assert es[..i + 1] == es[..i] + [es[i]];
      RunSnoc(cfg, Fresh(number), es[..i], es[i]);
      match es[i] {
        case Buffer(x) => r.EncoderCallback(x);
        case SplitRequest => r.RequestSplit();
      }
      i := i + 1;
    }
    assert es[..i] == es;
    FilesConserveStream(cfg, Fresh(number), es);
    assert Joined([[]]) == [];
    if !r.abort {
      NoAbortWholeStream(cfg, number, es);
    }
  }

  /** The segment number stays in range once it starts there. */
  lemma {:induction false} SegmentNumberWraps(cfg: Settings, s: Recording, es: seq<Event>)
    requires Open(s) && AllPossible(es) && cfg.segmentWrap > 0 && 1 <= s.segmentNumber <= cfg.segmentWrap
    ensures 1 <= Run(cfg, s, es).segmentNumber <= cfg.segmentWrap
    decreases |es|
  {
    if es != [] {
      SegmentNumberWraps(cfg, Next(cfg, s, es[0]), es[1..]);
    }
  }

  /** The times at which a run splits. */
  function SplitTimes(cfg: Settings, s: Recording, es: seq<Event>): seq<int>
    requires Open(s) && AllPossible(es)
    decreases |es|
  {
    if es == [] then []
    else
      (if es[0].Buffer? && Splits(cfg, s, es[0].x) then [es[0].x.now] else [])
      + SplitTimes(cfg, Next(cfg, s, es[0]), es[1..])
  }

  /** Without splitWait consecutive splits are more than segmentSize apart, also when the
      file could not be opened; a recording without a segment size is never split. */
  lemma {:induction false} SplitsAreSpaced(cfg: Settings, s: Recording, es: seq<Event>)
    requires Open(s) && AllPossible(es) && !cfg.splitWait
    ensures var ts := SplitTimes(cfg, s, es);
            && (cfg.segmentSize == 0 ==> ts == [])
            && (ts != [] && s.baseTime != -1 ==> ts[0] > s.baseTime + cfg.segmentSize)
            && forall i :: 0 < i < |ts| ==> ts[i] > ts[i - 1] + cfg.segmentSize
    decreases |es|
  {
    if es != [] {
      var s' := Next(cfg, s, es[0]);
      SplitsAreSpaced(cfg, s', es[1..]);
    }
  }

  /** When a CONFIG buffer splits, and when it does not: from a recording that was last split,
      or begun, at time base, by time if there is a segment size, and on request if splitting
      is by request and one is pending.  No other buffer splits. */
  lemma SplitsExactly(cfg: Settings, s: Recording, x: Input, base: int)
    requires Open(s) && Possible(x) && base >= 0 && s.baseTime == base
    ensures var s' := Step(cfg, s, x);
            var byTime := cfg.segmentSize != 0 && x.now - base > cfg.segmentSize;
            var next := s.segmentNumber + 1;
            if x.config && (byTime || (cfg.splitWait && s.splitNow)) then
              && s'.baseTime == x.now && !s'.splitNow
              && |s'.files| == |s.files| + (if cfg.hasFile && x.opens then 1 else 0)
              && |s'.imvFiles| == |s.imvFiles| + (if cfg.hasImvFile && x.opensImv then 1 else 0)
              && s'.segmentNumber == if cfg.segmentWrap > 0 && next > cfg.segmentWrap then 1 else next
            else
              && s'.baseTime == base && s'.splitNow == s.splitNow && s'.segmentNumber == s.segmentNumber
              && |s'.files| == |s.files| && |s'.imvFiles| == |s.imvFiles|
  {
  }

  /** The first buffer of a recording starts the clock and cannot split by time. */
  lemma FirstBuffer(cfg: Settings, number: int, x: Input)
    requires Possible(x) && cfg.segmentSize >= 0
    ensures var s' := Step(cfg, Fresh(number), x);
            s'.baseTime == x.now && s'.segmentNumber == number && |s'.files| == 1 && |s'.imvFiles| == 1
  {
  }

  /** How many splits a run makes. */
  function SplitCount(cfg: Settings, s: Recording, es: seq<Event>): nat
    requires Open(s) && AllPossible(es)
  {
    |SplitTimes(cfg, s, es)|
  }

  /** Without a wrap point segments are numbered consecutively. */
  lemma {:induction false} SegmentsAreCounted(cfg: Settings, s: Recording, es: seq<Event>)
    requires Open(s) && AllPossible(es) && cfg.segmentWrap == 0
    ensures Run(cfg, s, es).segmentNumber == s.segmentNumber + SplitCount(cfg, s, es)
    decreases |es|
  {
    if es != [] {
      SegmentsAreCounted(cfg, Next(cfg, s, es[0]), es[1..]);
    }
  }

  /** If every file can be opened, every split begins one. */
  lemma {:induction false} EverySplitOpens(cfg: Settings, s: Recording, es: seq<Event>)
    requires Open(s) && AllPossible(es) && cfg.hasFile
    requires forall i :: 0 <= i < |es| && es[i].Buffer? ==> es[i].x.opens
    ensures |Run(cfg, s, es).files| == |s.files| + SplitCount(cfg, s, es)
    decreases |es|
  {
    if es != [] {
      assert forall i :: 0 <= i < |es[1..]| ==> es[1..][i] == es[i + 1];
      EverySplitOpens(cfg, Next(cfg, s, es[0]), es[1..]);
    }
  }
}

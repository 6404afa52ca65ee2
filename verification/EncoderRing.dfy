/** The recorder's circular mode: a byte ring that always holds the end of the encoded
    stream, and a second ring that remembers where in it the I-frames begin. */
module EncoderRing {
  import opened Arithmetic

  type Byte = char

  const IFRAME_BUFSIZE := 60 * 1000
  const HEADER_SIZE := 29

  datatype Chunk = Chunk(data: seq<Byte>, config: bool, sideInfo: bool, keyframe: bool, frameEnd: bool)

  // ---- The byte ring on values ----

  /** Where byte m of the stream is written, lap being where the current lap began. */
  function Pos(m: int, lap: int, len: int): int {
    if m >= lap then m - lap else m - lap + len
  }

  /** lap is a multiple of n. */
  ghost predicate WholeLaps(lap: nat, n: nat) {
    lap == 0 || (0 < n <= lap && WholeLaps(lap - n, n))
  }

  lemma {:induction false} WholeLapsMod(lap: nat, n: nat)
    requires 0 < n && WholeLaps(lap, n)
    ensures lap % n == 0
  {
    if lap > 0 {
      WholeLapsMod(lap - n, n);
      ModAdd(lap - n, n);
    }
  }

  /** The ring buf holds the end of the stream. */
  ghost predicate RingHolds(buf: seq<Byte>, stream: seq<Byte>, lap: nat) {
    && |buf| > 0
    && WholeLaps(lap, |buf|)
    && lap <= |stream| < lap + |buf|
    && forall m {:trigger stream[m]} :: 0 <= m < |stream| <= m + |buf| ==> buf[Pos(m, lap, |buf|)] == stream[m]
  }

  /** The same in two pieces: this lap's bytes in front of the write pointer, the previous
      lap's behind it. */
  ghost predicate LaidOut(buf: seq<Byte>, stream: seq<Byte>, lap: nat) {
    && |buf| > 0
    && WholeLaps(lap, |buf|)
    && lap <= |stream| < lap + |buf|
    && buf[..|stream| - lap] == stream[lap..]
    && (lap > 0 ==> buf[|stream| - lap..] == stream[|stream| - |buf|..lap])
  }

  lemma HoldsLaidOut(buf: seq<Byte>, stream: seq<Byte>, lap: nat)
    requires RingHolds(buf, stream, lap)
    ensures LaidOut(buf, stream, lap)
  {
    var w, n := |stream| - lap, |buf|;
    forall i | 0 <= i < w
      ensures buf[..w][i] == stream[lap..][i]
    {
      assert stream[lap + i] == buf[i];
    }
    if lap > 0 {
      var back := |stream| - n;
      forall i | 0 <= i < n - w
        ensures buf[w..][i] == stream[back..lap][i]
      {
        assert stream[back + i] == buf[w + i];
      }
      assert buf[w..] == stream[back..lap];
    }
  }

  /** buf' is buf with a chunk written at w: the chunk lies at the write pointer and, once it
      has run over the end of the ring, at its start; everything else is as before. */
  ghost predicate IsWritten(buf: seq<Byte>, w: nat, data: seq<Byte>, buf': seq<Byte>) {
    && |buf'| == |buf| && w < |buf| && |data| <= |buf|
    && forall i {:trigger buf'[i]} :: 0 <= i < |buf| ==>
         buf'[i] == if w <= i < w + |data| then data[i - w]
                    else if i + |buf| < w + |data| then data[i + |buf| - w]
                    else buf[i]
  }

  lemma ModOnce(x: nat, n: nat)
    requires 0 < n && x < 2 * n
    ensures x % n == if x < n then x else x - n
  {
    if x < n {
      SmallMod(x, n);
    } else {
      SmallMod(x - n, n);
      ModAdd(x - n, n);
    }
  }

  lemma SmallMod(x: nat, n: nat)
    requires x < n
    ensures x % n == x
  {
  }

  lemma ModAdd(x: nat, n: nat)
    requires 0 < n
    ensures (x + n) % n == x % n
  {
    var q := x / n;
    assert x == n * q + x % n;
    assert x + n == n * (q + 1) + x % n by {
      assert n * (q + 1) == n * q + n;
    }
    DivModUnique(x + n, n, q + 1, x % n);
  }

  /** The write pointer is the length of the stream modulo the ring. */
  lemma WritePointerIsMod(buf: seq<Byte>, stream: seq<Byte>, lap: nat)
    requires RingHolds(buf, stream, lap)
    ensures |stream| - lap == |stream| % |buf|
  {
    var n, w := |buf|, |stream| - lap;
    WholeLapsMod(lap, n);
    var q := lap / n;
    assert lap == n * q;
    DivModUnique(|stream|, n, q, w);
  }

  lemma SliceOfSlice<T>(s: seq<T>, i: nat, j: nat, k: nat)
    requires i <= j <= |s| && k <= j - i
    ensures s[i..j][k..] == s[i + k..j]
  {
  }

  function NextLap(lap: nat, t: nat, length: nat, n: nat): nat {
    if t - lap + length < n then lap else lap + n
  }

  /** Appending a chunk no longer than the ring: it holds the end of the longer stream. */
  lemma WrittenHolds(buf: seq<Byte>, stream: seq<Byte>, lap: nat, data: seq<Byte>, buf': seq<Byte>)
    requires RingHolds(buf, stream, lap) && IsWritten(buf, |stream| - lap, data, buf')
    ensures RingHolds(buf', stream + data, NextLap(lap, |stream|, |data|, |buf|))
  {
    var n, t, all := |buf|, |stream|, stream + data;
    var lap' := NextLap(lap, t, |data|, n);
    forall m | 0 <= m < |all| <= m + n
      ensures buf'[Pos(m, lap', n)] == all[m]
    {
      if m < t {
        assert all[m] == stream[m] == buf[Pos(m, lap, n)];
      } else {
        assert all[m] == data[m - t];
      }
    }
  }

  /** Every byte of the last min(total, ring) bytes sits at its offset modulo the ring. */
  lemma RingRefinesStream(buf: seq<Byte>, stream: seq<Byte>, lap: nat, m: nat)
    requires RingHolds(buf, stream, lap)
    requires m < |stream| <= m + |buf|
    ensures Pos(m, lap, |buf|) == m % |buf|
    ensures buf[m % |buf|] == stream[m]
  {
    var n := |buf|;
    WholeLapsMod(lap, n);
    var q := lap / n;
    assert lap == n * q;
    if m >= lap {
      DivModUnique(m, n, q, m - lap);
    } else {
      assert n * (q - 1) == n * q - n;
      DivModUnique(m, n, q - 1, m - lap + n);
    }
  }

  // ---- The I-frame index on values ----

  /** The loop condition of the eviction: entry p lies in the bytes about to be written. */
  predicate InWindow(w: int, length: int, p: int, n: int) {
    || (w <= p && w + length > p)
    || (w > p && w + length > p + n)
  }

  /** On positions that is a test for the offset m being overwritten by the next length
      bytes, except that it also takes in a frame that begins with these very bytes. */
  lemma WindowMeansOverwritten(t: nat, lap: nat, n: nat, length: nat, m: nat)
    requires lap <= t < lap + n && length <= n
    requires m <= t <= m + n
    ensures 0 <= Pos(m, lap, n) < n
    ensures InWindow(t - lap, length, Pos(m, lap, n), n) <==> m + n < t + length || (m == t && length > 0)
  {
  }

  ghost predicate Ascending(marks: seq<nat>) {
    forall i, j :: 0 <= i <= j < |marks| ==> marks[i] <= marks[j]
  }

  /** The entries that survive when the ring goes on to hold only offsets from bound. */
  function Surviving(marks: seq<nat>, bound: int): seq<nat> {
    if marks == [] || marks[0] >= bound then marks else Surviving(marks[1..], bound)
  }

  /** Exactly the entries before the first at or beyond the bound are dropped. */
  lemma {:induction false} SurvivingIsSuffix(marks: seq<nat>, bound: int)
    ensures var r := Surviving(marks, bound);
            && |r| <= |marks| && r == marks[|marks| - |r|..]
            && (forall j :: 0 <= j < |marks| - |r| ==> marks[j] < bound)
            && (r != [] ==> r[0] >= bound)
  {
    if marks != [] && marks[0] < bound {
      SurvivingIsSuffix(marks[1..], bound);
    }
  }

  /** What the eviction needs: some I-frame that began before this chunk stays in the ring
      (a lone entry need only stay itself; an empty chunk overwrites nothing). */
  ghost predicate SomeSurvivor(marks: seq<nat>, t: nat, length: nat, n: nat) {
    if |marks| == 1 then marks[0] + n >= t + length
    else exists j :: 0 <= j < |marks| && marks[j] + n >= t + length && (marks[j] < t || length == 0)
  }

  function NextSlot(i: nat): (r: nat)
    ensures r < IFRAME_BUFSIZE
  {
    (i + 1) % IFRAME_BUFSIZE
  }

  /** From the read to the write position the index holds where the frames marks begin. */
  ghost predicate IndexHolds(index: seq<int>, rpos: nat, wpos: nat, marks: seq<nat>, lap: nat, n: nat)
    decreases marks
  {
    && |index| == IFRAME_BUFSIZE && rpos < IFRAME_BUFSIZE
    && if marks == [] then wpos == rpos
       else index[rpos] == Pos(marks[0], lap, n) && IndexHolds(index, NextSlot(rpos), wpos, marks[1..], lap, n)
  }

  lemma {:induction false} IndexSpan(index: seq<int>, rpos: nat, wpos: nat, marks: seq<nat>, lap: nat, n: nat)
    requires IndexHolds(index, rpos, wpos, marks, lap, n)
    ensures wpos < IFRAME_BUFSIZE && wpos == (rpos + |marks|) % IFRAME_BUFSIZE
    decreases marks
  {
    if marks != [] {
      IndexSpan(index, NextSlot(rpos), wpos, marks[1..], lap, n);
    }
  }

  lemma {:induction false} IndexPush(index: seq<int>, rpos: nat, wpos: nat, marks: seq<nat>, lap: nat, n: nat, m: nat)
    requires IndexHolds(index, rpos, wpos, marks, lap, n) && |marks| + 1 < IFRAME_BUFSIZE
    ensures wpos < IFRAME_BUFSIZE
    ensures IndexHolds(index[wpos := Pos(m, lap, n)], rpos, NextSlot(wpos), marks + [m], lap, n)
    decreases marks
  {
    IndexSpan(index, rpos, wpos, marks, lap, n);
    if marks != [] {
      IndexPush(index, NextSlot(rpos), wpos, marks[1..], lap, n, m);
      assert (marks + [m])[1..] == marks[1..] + [m];
    } else {
      assert (marks + [m])[1..] == [];
    }
  }

  lemma {:induction false} IndexNextLap(index: seq<int>, rpos: nat, wpos: nat, marks: seq<nat>, lap: nat, n: nat,
                                        t: nat, length: nat)
    requires IndexHolds(index, rpos, wpos, marks, lap, n)
    requires lap <= t < lap + n && length <= n
    requires AllLive(marks, t, n) && (marks != [] ==> t + length <= marks[0] + n)
    ensures IndexHolds(index, rpos, wpos, marks, NextLap(lap, t, length, n), n)
    ensures AllLive(marks, t + length, n)
    decreases marks
  {
    if marks != [] {
      IndexNextLap(index, NextSlot(rpos), wpos, marks[1..], lap, n, t, length);
    }
  }

  /** The marks are in stream order, not beyond t, and still in a ring of n bytes. */
  ghost predicate AllLive(marks: seq<nat>, t: nat, n: nat) {
    marks == [] ||
    (&& marks[0] <= t <= marks[0] + n
     && (|marks| > 1 ==> marks[0] <= marks[1])
     && AllLive(marks[1..], t, n))
  }

  lemma {:induction false} AllLiveAscending(marks: seq<nat>, t: nat, n: nat)
    requires AllLive(marks, t, n)
    ensures Ascending(marks)
    ensures forall j :: 0 <= j < |marks| ==> marks[j] <= t <= marks[j] + n
  {
    if marks != [] {
      AllLiveAscending(marks[1..], t, n);
    }
  }

  lemma {:induction false} AllLiveSnoc(marks: seq<nat>, m: nat, t: nat, n: nat)
    requires AllLive(marks, t, n) && m <= t <= m + n && (marks != [] ==> marks[|marks| - 1] <= m)
    ensures AllLive(marks + [m], t, n)
  {
    if marks != [] {
      AllLiveSnoc(marks[1..], m, t, n);
      assert (marks + [m])[1..] == marks[1..] + [m];
    } else {
      assert (marks + [m])[1..] == [];
    }
  }

  lemma PushIsLive(marks: seq<nat>, m: nat, t: nat, length: nat, n: nat)
    requires AllLive(marks, t, n) && m <= t && (marks != [] ==> marks[|marks| - 1] <= m)
    requires SomeSurvivor(marks + [m], t, length, n)
    ensures t <= m + n && AllLive(marks + [m], t, n)
  {
    var r := marks + [m];
    AllLiveAscending(marks, t, n);
    if marks != [] {
      var j :| 0 <= j < |r| && r[j] + n >= t + length && (r[j] < t || length == 0);
      assert r[j] <= m;
    } else {
      assert r[0] == m;
    }
    AllLiveSnoc(marks, m, t, n);
  }

  lemma {:induction false} SuffixIsLive(marks: seq<nat>, bound: int, t: nat, n: nat)
    requires AllLive(marks, t, n)
    ensures var r := Surviving(marks, bound);
            AllLive(r, t, n) && (r != [] ==> marks != [] && r[|r| - 1] == marks[|marks| - 1])
  {
    if marks != [] && marks[0] < bound {
      SuffixIsLive(marks[1..], bound, t, n);
    }
  }

  lemma FirstSurvivor(marks: seq<nat>, t: nat, length: nat, n: nat)
    requires AllLive(marks, t, n) && |marks| != 1 && SomeSurvivor(marks, t, length, n)
    ensures var r := Surviving(marks, t + length - n);
            r != [] && (r[0] < t || length == 0)
  {
    AllLiveAscending(marks, t, n);
    var j :| 0 <= j < |marks| && marks[j] + n >= t + length && (marks[j] < t || length == 0);
    var r := Surviving(marks, t + length - n);
    SurvivingIsSuffix(marks, t + length - n);
    assert |marks| - |r| <= j;
    assert r[0] == marks[|marks| - |r|] <= marks[j];
  }

  /** memcpy */
  method CopyInto(dst: array<Byte>, at: nat, src: seq<Byte>)
    requires at + |src| <= dst.Length
    modifies dst
    ensures forall i :: 0 <= i < dst.Length ==>
              dst[i] == if at <= i < at + |src| then src[i - at] else old(dst[i])
  {
    forall i | 0 <= i < |src| {
      dst[at + i] := src[i];
    }
  }

  /** cb_buff, cb_len, cb_wptr and cb_wrap. */
  class ByteRing {
    const cbBuff: array<Byte>
    var cbWptr: int
    var cbWrap: bool
    ghost var stream: seq<Byte>  // every byte ever pushed
    ghost var lap: nat           // where in it the current lap began

    ghost predicate Valid()
      reads this, cbBuff
    {
      && RingHolds(cbBuff[..], stream, lap)
      && cbWptr == |stream| - lap
      && (cbWrap ==> |stream| > cbBuff.Length)
    }

    constructor (count: nat)
      requires count > 0
      ensures Valid() && fresh(cbBuff) && cbBuff.Length == count && stream == [] && lap == 0 && !cbWrap
    {
      cbBuff := new Byte[count](_ => '\0');
      cbWptr, cbWrap, stream, lap := 0, false, [], 0;
    }

    /** The two memcpy calls. */
    method Store(data: seq<Byte>)
      requires 0 <= cbWptr < cbBuff.Length && |data| <= cbBuff.Length
      modifies cbBuff
      ensures IsWritten(old(cbBuff[..]), cbWptr, data, cbBuff[..])
    {
      var spaceInBuff := cbBuff.Length - cbWptr;
      var copyToEnd := if spaceInBuff > |data| then |data| else spaceInBuff;
      CopyInto(cbBuff, cbWptr, data[..copyToEnd]);
      CopyInto(cbBuff, 0, data[copyToEnd..]);
    }

    /** Push a chunk: its bytes, the wrap flag and the new write pointer. */
    method Write(data: seq<Byte>)
      requires Valid() && |data| <= cbBuff.Length
      modifies this, cbBuff
      ensures Valid() && stream == old(stream) + data
      ensures lap == NextLap(old(lap), |old(stream)|, |data|, cbBuff.Length)
      ensures cbWrap == (old(cbWrap) || old(cbWptr) + |data| > cbBuff.Length)
    {
      ghost var buf := cbBuff[..];
      var next := (cbWptr + |data|) % cbBuff.Length;
      ModOnce(cbWptr + |data|, cbBuff.Length);
      Store(data);
      WrittenHolds(buf, stream, lap, data, cbBuff[..]);
      if cbWptr + |data| > cbBuff.Length {
        cbWrap := true;
      }
      lap := NextLap(lap, |stream|, |data|, cbBuff.Length);
      stream := stream + data;
      cbWptr := next;
    }
  }

  /** iframe_buff with its read and write positions. */
  class FrameIndex {
    const iframeBuff: array<int>
    var iframeRpos: nat
    var iframeWpos: nat
    ghost var marks: seq<nat>  // the stream offsets of the entries

    ghost predicate Valid(lap: nat, n: nat)
      reads this, iframeBuff
    {
      && |marks| < IFRAME_BUFSIZE
      && IndexHolds(iframeBuff[..], iframeRpos, iframeWpos, marks, lap, n)
    }

    constructor ()
      ensures fresh(iframeBuff) && marks == [] && forall n: nat :: Valid(0, n)
    {
      iframeBuff := new int[IFRAME_BUFSIZE](_ => 0);
      iframeRpos, iframeWpos, marks := 0, 0, [];
    }

    method Push(frameStart: int, ghost m: nat, ghost lap: nat, ghost n: nat)
      requires Valid(lap, n) && |marks| + 1 < IFRAME_BUFSIZE && frameStart == Pos(m, lap, n)
      modifies this, iframeBuff
      ensures Valid(lap, n) && marks == old(marks) + [m]
    {
      IndexPush(iframeBuff[..], iframeRpos, iframeWpos, marks, lap, n, m);
      ghost var index := iframeBuff[..];
      iframeBuff[iframeWpos] := frameStart;
      assert iframeBuff[..] == index[iframeWpos := frameStart];
      iframeWpos := (iframeWpos + 1) % IFRAME_BUFSIZE;
      marks := marks + [m];
    }

    /** Drop the oldest entry. */
    method Advance(ghost lap: nat, ghost n: nat)
      requires Valid(lap, n) && marks != []
      modifies this`iframeRpos, this`marks
      ensures Valid(lap, n) && marks == old(marks)[1..]
    {
      iframeRpos := (iframeRpos + 1) % IFRAME_BUFSIZE;
      marks := marks[1..];
    }

    /** Move the read position past the entries in the bytes about to be overwritten.  The
        guard is tested once, before the loop; t is the length of the stream so far. */
    method Evict(cbWptr: int, length: nat, cbLen: nat, ghost t: nat, ghost lap: nat)
      requires Valid(lap, cbLen) && marks != []
      requires lap <= t < lap + cbLen && cbWptr == t - lap && length <= cbLen
      requires AllLive(marks, t, cbLen) && SomeSurvivor(marks, t, length, cbLen)
      modifies this
      ensures Valid(lap, cbLen) && marks != []
      ensures marks == if |old(marks)| == 1 then old(marks) else Surviving(old(marks), t + length - cbLen)
      ensures t + length <= marks[0] + cbLen
    {
      IndexSpan(iframeBuff[..], iframeRpos, iframeWpos, marks, lap, cbLen);
      if (iframeRpos + 1) % IFRAME_BUFSIZE != iframeWpos {
        ghost var bound := t + length - cbLen;
        FirstSurvivor(marks, t, length, cbLen);
        FrontEntry(t, lap, cbLen, length);
        while InWindow(cbWptr, length, iframeBuff[iframeRpos], cbLen)
          invariant Valid(lap, cbLen) && AllLive(marks, t, cbLen)
          invariant Surviving(marks, bound) == Surviving(old(marks), bound)
          invariant InWindow(cbWptr, length, iframeBuff[iframeRpos], cbLen) <==> marks[0] < bound
          decreases |marks|
        {
          Advance(lap, cbLen);
          FrontEntry(t, lap, cbLen, length);
        }
      }
    }

    /** The loop condition on the entry at the read position. */
    lemma FrontEntry(t: nat, lap: nat, n: nat, length: nat)
      requires Valid(lap, n) && AllLive(marks, t, n) && marks != []
      requires lap <= t < lap + n && length <= n
      ensures InWindow(t - lap, length, iframeBuff[iframeRpos], n) <==>
              marks[0] + n < t + length || (marks[0] == t && length > 0)
    {
      WindowMeansOverwritten(t, lap, n, length, marks[0]);
      assert iframeBuff[..][iframeRpos] == Pos(marks[0], lap, n);
    }
  }

  // ---- The saved clip on values ----

  /** Where the current lap of the ring began. */
  function LapStart(t: nat, n: nat): (r: nat)
    requires n > 0
    ensures r <= t
  {
    t - t % n
  }

  /** Offset o lies at or behind the write pointer. */
  predicate Behind(o: nat, t: nat, n: nat)
    requires n > 0
  {
    o % n >= t % n
  }

  /** What the two final fwrite calls make of a ring that has wrapped, from position p on. */
  function FlushedFrom(buf: seq<Byte>, w: nat, p: nat): seq<Byte>
    requires w <= |buf| && p < |buf|
  {
    buf[p..] + buf[..if w < p then w else p]
  }

  lemma FlushedFromBehind(buf: seq<Byte>, stream: seq<Byte>, lap: nat, o: nat)
    requires LaidOut(buf, stream, lap) && |stream| > |buf|
    requires o < lap && |stream| <= o + |buf|
    ensures FlushedFrom(buf, |stream| - lap, o - lap + |buf|) == stream[o..]
  {
    var n, w, p := |buf|, |stream| - lap, o - lap + |buf|;
    SliceOfSlice(buf, w, n, p - w);
    assert buf[w..n] == buf[w..] && buf[p..n] == buf[p..];
    SliceOfSlice(stream, |stream| - n, lap, p - w);
    assert stream[o..] == stream[o..lap] + stream[lap..];
    assert (if w < p then w else p) == w;
  }

  lemma FlushedFromAhead(buf: seq<Byte>, stream: seq<Byte>, lap: nat, o: nat)
    requires LaidOut(buf, stream, lap) && |stream| > |buf|
    requires lap <= o < |stream|
    ensures FlushedFrom(buf, |stream| - lap, o - lap) == stream[o..] + stream[|stream| - |buf|..o]
  {
    var n, w, p := |buf|, |stream| - lap, o - lap;
    var front, back := stream[lap..], stream[|stream| - n..lap];
    assert lap > 0 && buf == front + back;
    assert buf[p..] == front[p..] + back && buf[..p] == front[..p];
    DropOfDrop(stream, lap, p);
    assert front[..p] == stream[lap..o];
    assert stream[|stream| - n..o] == back + stream[lap..o];
  }

  lemma DropOfDrop<T>(s: seq<T>, i: nat, j: nat)
    requires i + j <= |s|
    ensures s[i..][j..] == s[i + j..]
  {
  }

  /** From an I-frame behind the write pointer the clip is the stream from there on; from one
      in front of it the ring goes round once and the older bytes follow. */
  lemma FlushedIsStream(buf: seq<Byte>, stream: seq<Byte>, lap: nat, o: nat)
    requires RingHolds(buf, stream, lap) && |stream| > |buf|
    requires o < |stream| <= o + |buf|
    ensures var w, p := |stream| - lap, Pos(o, lap, |buf|);
            && 0 <= p < |buf|
            && FlushedFrom(buf, w, p) == stream[o..] + if p >= w then [] else stream[|stream| - |buf|..o]
  {
    HoldsLaidOut(buf, stream, lap);
    if o < lap {
      FlushedFromBehind(buf, stream, lap, o);
      assert stream[o..] + [] == stream[o..];
    } else {
      FlushedFromAhead(buf, stream, lap, o);
    }
  }

  lemma FlushedParts(buf: seq<Byte>, w: nat, p: nat)
    requires w <= |buf| && p < |buf|
    ensures FlushedFrom(buf, w, p) == buf[p..|buf|] + buf[..if w < p then w else p]
  {
  }

  lemma ClipWhenWrapped(header: seq<Byte>, buf: seq<Byte>, stream: seq<Byte>, lap: nat, o: nat)
    requires RingHolds(buf, stream, lap) && |stream| > |buf|
    requires o < |stream| <= o + |buf|
    ensures var n, t, clip := |buf|, |stream|, header + FlushedFrom(buf, |stream| - lap, Pos(o, lap, |buf|));
            && clip == header + (stream[o..] + if Behind(o, t, n) then [] else stream[t - n..o])
            && (clip == header + stream[o..] <==> Behind(o, t, n))
  {
    var n, t := |buf|, |stream|;
    FlushedIsStream(buf, stream, lap, o);
    RingRefinesStream(buf, stream, lap, o);
    WritePointerIsMod(buf, stream, lap);
    var more := if Behind(o, t, n) then [] else stream[t - n..o];
    assert FlushedFrom(buf, t - lap, Pos(o, lap, n)) == stream[o..] + more;
    assert |header + (stream[o..] + more)| == |header + stream[o..]| + |more|;
    assert stream[o..] + [] == stream[o..];
    if !Behind(o, t, n) {
      assert o != t - n;
    }
  }

  // ---- The whole recorder ----

  class CircularRecorder {
    const ring: ByteRing
    const index: FrameIndex
    const headerBytes: array<Byte>
    var headerWptr: int
    var frameStart: int       // ring position where the current frame began, -1 between frames
    ghost var frameOff: nat   // its stream offset
    ghost var header: seq<Byte>

    ghost function Repr(): set<object>
      reads this
    {
      {this, ring, ring.cbBuff, index, index.iframeBuff, headerBytes}
    }

    ghost predicate HeaderOk()
      reads this, headerBytes
    {
      && headerBytes.Length == HEADER_SIZE && 0 <= headerWptr <= HEADER_SIZE
      && headerBytes[..headerWptr] == header
    }

    /** Every indexed I-frame is in the ring, and once there is a stream there is one to
        start from. */
    ghost predicate IndexOk()
      reads this, ring, index, index.iframeBuff
    {
      && index.Valid(ring.lap, ring.cbBuff.Length)
      && AllLive(index.marks, |ring.stream|, ring.cbBuff.Length)
      && (ring.stream != [] ==> index.marks != [] && index.marks[0] < |ring.stream|)
    }

    ghost predicate FrameOk()
      reads this, ring, index
    {
      frameStart != -1 ==>
        && frameOff <= |ring.stream|
        && (|ring.stream| <= frameOff + ring.cbBuff.Length ==>
              frameStart == Pos(frameOff, ring.lap, ring.cbBuff.Length))
        && (index.marks != [] ==> index.marks[|index.marks| - 1] <= frameOff)
    }

    ghost predicate Valid()
      reads Repr()
    {
      && headerBytes != ring.cbBuff
      && ring.Valid()
      && IndexOk()
      && FrameOk()
      && HeaderOk()
    }

    /** The set-up in main, count being the ring size. */
    constructor (count: nat)
      requires count > 0
      ensures Valid() && fresh(Repr())
      ensures ring.cbBuff.Length == count
      ensures ring.stream == [] && index.marks == [] && header == [] && !ring.cbWrap && frameStart == -1
    {
      ring := new ByteRing(count);
      index := new FrameIndex();
      headerBytes := new Byte[HEADER_SIZE](_ => '\0');
      headerWptr, frameStart, frameOff, header := 0, -1, 0, [];
    }

    /** Offset of the frame the next chunk belongs to. */
    ghost function FrameOffset(): nat
      reads this, ring
    {
      if frameStart == -1 then |ring.stream| else frameOff
    }

    /** The index once the chunk's keyframe flag has been seen. */
    ghost function Pushed(c: Chunk): seq<nat>
      reads this, ring, index
    {
      if c.keyframe then index.marks + [FrameOffset()] else index.marks
    }

    /** What the encoder must observe: chunks fit the ring, the index has room, and the
        index is never left without a frame to fall back on. */
    ghost predicate Accepts(c: Chunk)
      reads this, ring, index
    {
      !c.config && !c.sideInfo ==>
        && |c.data| <= ring.cbBuff.Length
        && (c.keyframe ==> |index.marks| + 1 < IFRAME_BUFSIZE)
        && Pushed(c) != []
        && SomeSurvivor(Pushed(c), |ring.stream|, |c.data|, ring.cbBuff.Length)
    }

    /** Header bytes are saved while they fit. */
    method SaveHeader(data: seq<Byte>)
      requires HeaderOk()
      modifies this`headerWptr, this`header, headerBytes
      ensures HeaderOk()
      ensures header == if |old(header)| + |data| <= HEADER_SIZE then old(header) + data else old(header)
    {
      if headerWptr + |data| <= HEADER_SIZE {
        CopyInto(headerBytes, headerWptr, data);
        assert headerBytes[..headerWptr] == header;
        headerWptr := headerWptr + |data|;
        header := header + data;
      }
    }

    /** A frame begins with the first chunk after the end of another; an I-frame is indexed. */
    method TrackFrame(c: Chunk)
      requires Valid() && !c.config && !c.sideInfo && Accepts(c)
      modifies this`frameStart, this`frameOff, index, index.iframeBuff
      ensures index.Valid(ring.lap, ring.cbBuff.Length) && FrameOk()
      ensures AllLive(index.marks, |ring.stream|, ring.cbBuff.Length)
      ensures index.marks == old(Pushed(c))
      ensures frameStart == -1 <==> c.frameEnd
      ensures !c.frameEnd ==> frameOff == old(FrameOffset())
    {
      if frameStart == -1 {
        frameStart := ring.cbWptr;
        frameOff := |ring.stream|;
        AllLiveAscending(index.marks, |ring.stream|, ring.cbBuff.Length);
      }
      if c.keyframe {
        PushIsLive(index.marks, frameOff, |ring.stream|, |c.data|, ring.cbBuff.Length);
        index.Push(frameStart, frameOff, ring.lap, ring.cbBuff.Length);
      }
      if c.frameEnd {
        frameStart := -1;
      }
    }

    /** The index after a data chunk. */
    ghost function Kept(c: Chunk): seq<nat>
      reads this, ring, index
    {
      if |Pushed(c)| == 1 then Pushed(c)
      else Surviving(Pushed(c), |ring.stream| + |c.data| - ring.cbBuff.Length)
    }

    /** Evict what the chunk will overwrite, then write it. */
    method EvictAndWrite(data: seq<Byte>)
      requires ring.Valid() && index.Valid(ring.lap, ring.cbBuff.Length) && FrameOk()
      requires AllLive(index.marks, |ring.stream|, ring.cbBuff.Length)
      requires |data| <= ring.cbBuff.Length && index.marks != []
      requires SomeSurvivor(index.marks, |ring.stream|, |data|, ring.cbBuff.Length)
      modifies ring, ring.cbBuff, index
      ensures ring.Valid() && index.Valid(ring.lap, ring.cbBuff.Length) && FrameOk()
      ensures AllLive(index.marks, |ring.stream|, ring.cbBuff.Length) && index.marks != []
      ensures index.marks == if |old(index.marks)| == 1 then old(index.marks)
                             else Surviving(old(index.marks), |old(ring.stream)| + |data| - ring.cbBuff.Length)
      ensures ring.stream == old(ring.stream) + data
      ensures ring.cbWrap == (old(ring.cbWrap) || old(ring.cbWptr) + |data| > ring.cbBuff.Length)
    {
      ghost var marks, t, lap, n := index.marks, |ring.stream|, ring.lap, ring.cbBuff.Length;
      index.Evict(ring.cbWptr, |data|, ring.cbBuff.Length, t, lap);
      SuffixIsLive(marks, t + |data| - n, t, n);
      IndexNextLap(index.iframeBuff[..], index.iframeRpos, index.iframeWpos, index.marks, lap, n, t, |data|);
      ring.Write(data);
    }

    /** encoder_buffer_callback in circular mode, for a data chunk. */
    method RecordData(c: Chunk)
      requires Valid() && !c.config && !c.sideInfo && Accepts(c)
      modifies Repr()
      ensures Valid() && header == old(header)
      ensures ring.stream == old(ring.stream) + c.data
      ensures index.marks == old(Kept(c))
      ensures ring.cbWrap == (old(ring.cbWrap) || old(ring.cbWptr) + |c.data| > ring.cbBuff.Length)
      ensures frameStart == -1 <==> c.frameEnd
      ensures !c.frameEnd ==> frameOff == old(FrameOffset())
    {
      ghost var t, n, pushed := |ring.stream|, ring.cbBuff.Length, Pushed(c);
      TrackFrame(c);
      EvictAndWrite(c.data);
      if |pushed| != 1 {
        FirstSurvivor(pushed, t, |c.data|, n);
      }
    }

    /** encoder_buffer_callback in circular mode. */
    method EncoderCallback(c: Chunk)
      requires Valid() && Accepts(c)
      modifies Repr()
      ensures Valid()
      ensures c.config ==>
                header == if |old(header)| + |c.data| <= HEADER_SIZE then old(header) + c.data else old(header)
      ensures !c.config ==> header == old(header)
      ensures c.config || c.sideInfo ==>
                ring.stream == old(ring.stream) && index.marks == old(index.marks) && ring.cbWrap == old(ring.cbWrap)
                && frameStart == old(frameStart) && frameOff == old(frameOff)
      ensures !c.config && !c.sideInfo ==>
                && ring.stream == old(ring.stream) + c.data
                && index.marks == old(Kept(c))
                && ring.cbWrap == (old(ring.cbWrap) || old(ring.cbWptr) + |c.data| > ring.cbBuff.Length)
                && (frameStart == -1 <==> c.frameEnd)
                && (!c.frameEnd ==> frameOff == old(FrameOffset()))
    {
      if c.config {
        SaveHeader(c.data);
      } else if c.sideInfo {
      } else {
        RecordData(c);
      }
    }

    /** The save block in main: header, ring from the oldest I-frame to the end, ring from
        the start.  A ring not flagged as wrapped gives the current lap only; a wrapped one
        gives the stream from the I-frame on, and nothing else, exactly when that frame lies
        at or behind the write pointer. */
    method Save() returns (out: seq<Byte>)
      requires Valid()
      ensures !ring.cbWrap ==> out == header + ring.stream[LapStart(|ring.stream|, ring.cbBuff.Length)..]
      ensures ring.cbWrap ==>
                var n, t, o := ring.cbBuff.Length, |ring.stream|, index.marks[0];
                && o < t <= o + n && n < t
                && out == header + (ring.stream[o..] + if Behind(o, t, n) then [] else ring.stream[t - n..o])
                && (out == header + ring.stream[o..] <==> Behind(o, t, n))
    {
      var p := index.iframeBuff[index.iframeRpos];
      var copyFromEnd := ring.cbBuff.Length - p;
      var copyFromStart := ring.cbBuff.Length - copyFromEnd;
      copyFromStart := if ring.cbWptr < copyFromStart then ring.cbWptr else copyFromStart;
      if !ring.cbWrap {
        copyFromStart := ring.cbWptr;
        copyFromEnd := 0;
      }
      if ring.cbWrap {
        WrappedParts(p);
      } else {
        LapPart();
      }
      out := WriteParts(p, copyFromEnd, copyFromStart);
    }

    /** The three fwrite calls. */
    method WriteParts(p: int, copyFromEnd: nat, copyFromStart: nat) returns (out: seq<Byte>)
      requires HeaderOk() && copyFromStart <= ring.cbBuff.Length
      requires copyFromEnd > 0 ==> 0 <= p <= ring.cbBuff.Length - copyFromEnd
      ensures copyFromEnd > 0 ==>
                out == header + (ring.cbBuff[p..p + copyFromEnd] + ring.cbBuff[..copyFromStart])
      ensures copyFromEnd == 0 ==> out == header + ring.cbBuff[..copyFromStart]
    {
      out := headerBytes[..headerWptr];
      if copyFromEnd > 0 {
        out := out + ring.cbBuff[p..p + copyFromEnd];
      }
      out := out + ring.cbBuff[..copyFromStart];
    }

    /** What the ring holds in front of the write pointer. */
    lemma LapPart()
      requires Valid()
      ensures header + ring.cbBuff[..ring.cbWptr] == header + ring.stream[LapStart(|ring.stream|, ring.cbBuff.Length)..]
    {
      WritePointerIsMod(ring.cbBuff[..], ring.stream, ring.lap);
      HoldsLaidOut(ring.cbBuff[..], ring.stream, ring.lap);
      assert ring.cbBuff[..][..ring.cbWptr] == ring.cbBuff[..ring.cbWptr];
    }

    /** What the two parts of a wrapped ring amount to, p being the oldest I-frame. */
    lemma WrappedParts(p: int)
      requires Valid() && ring.cbWrap && p == index.iframeBuff[index.iframeRpos]
      ensures index.marks != [] && 0 <= p < ring.cbBuff.Length
      ensures var n, t, o, w := ring.cbBuff.Length, |ring.stream|, index.marks[0], ring.cbWptr;
              && o < t <= o + n && n < t
              && var clip := header + (ring.cbBuff[p..n] + ring.cbBuff[..if w < p then w else p]);
                 && clip == header + (ring.stream[o..] + if Behind(o, t, n) then [] else ring.stream[t - n..o])
                 && (clip == header + ring.stream[o..] <==> Behind(o, t, n))
    {
      assert index.iframeBuff[..][index.iframeRpos] == Pos(index.marks[0], ring.lap, ring.cbBuff.Length);
      ClipWhenWrapped(header, ring.cbBuff[..], ring.stream, ring.lap, index.marks[0]);
      FlushedParts(ring.cbBuff[..], ring.cbWptr, p);
      assert ring.cbBuff[..][p..ring.cbBuff.Length] == ring.cbBuff[p..ring.cbBuff.Length];
    }
  }

  // ---- Whole recordings ----

  predicate IsData(c: Chunk) {
    !c.config && !c.sideInfo
  }

  /** The encoded stream. */
  function Payload(cs: seq<Chunk>): seq<Byte> {
    if cs == [] then []
    else Payload(cs[..|cs| - 1]) + if IsData(cs[|cs| - 1]) then cs[|cs| - 1].data else []
  }

  /** What a recording has come to, counted on the stream alone: its length, where the open
      frame began (-1 for none), where every I-frame began, the header, and whether a chunk
      has crossed a multiple of the ring size. */
  datatype Track = Track(total: nat, frame: int, keys: seq<nat>, header: seq<Byte>, wrapped: bool)

  const NOTHING := Track(0, -1, [], [], false)

  /** A chunk after t bytes runs over the end of a ring of n bytes. */
  predicate Crosses(t: nat, length: nat, n: nat)
    requires n > 0
  {
    t % n + length > n
  }

  lemma CrossesIs(buf: seq<Byte>, stream: seq<Byte>, lap: nat, length: nat)
    requires RingHolds(buf, stream, lap)
    ensures Crosses(|stream|, length, |buf|) <==> |stream| - lap + length > |buf|
  {
    WritePointerIsMod(buf, stream, lap);
  }

  /** Where the frame that the next chunk belongs to began. */
  function FrameBegin(tr: Track): nat {
    if tr.frame < 0 then tr.total else tr.frame
  }

  function Tracked(tr: Track, c: Chunk, n: nat): Track
    requires n > 0
  {
    if c.config then
      tr.(header := if |tr.header| + |c.data| <= HEADER_SIZE then tr.header + c.data else tr.header)
    else if c.sideInfo then tr
    else
      var frame := FrameBegin(tr);
      Track(tr.total + |c.data|, if c.frameEnd then -1 else frame,
            if c.keyframe then tr.keys + [frame] else tr.keys,
            tr.header, tr.wrapped || Crosses(tr.total, |c.data|, n))
  }

  function After(cs: seq<Chunk>, n: nat): Track
    requires n > 0
  {
    if cs == [] then NOTHING else Tracked(After(cs[..|cs| - 1], n), cs[|cs| - 1], n)
  }

  // ---- The recording by itself, chunk by chunk ----

  /** The data chunk before chunk i, -1 if there is none. */
  function DataBefore(cs: seq<Chunk>, i: nat): (p: int)
    requires i <= |cs|
    ensures -1 <= p < i
    ensures p >= 0 ==> !cs[p].config && !cs[p].sideInfo
    ensures forall k :: p < k < i ==> cs[k].config || cs[k].sideInfo
  {
    if i == 0 then -1 else if IsData(cs[i - 1]) then i - 1 else DataBefore(cs, i - 1)
  }

  /** The chunk with which the frame of chunk i begins. */
  function FrameStart(cs: seq<Chunk>, i: nat): (j: nat)
    requires i < |cs|
    ensures j <= i
  {
    var p := DataBefore(cs, i);
    if p < 0 || cs[p].frameEnd then i else FrameStart(cs, p)
  }

  /** It is a data chunk, the data chunk before it ended a frame, if there is one, and no data
      chunk from it up to i does. */
  lemma {:induction false} FrameStartMeans(cs: seq<Chunk>, i: nat)
    requires i < |cs| && !cs[i].config && !cs[i].sideInfo
    ensures var j := FrameStart(cs, i);
            && !cs[j].config && !cs[j].sideInfo
            && (forall k :: j <= k < i && !cs[k].config && !cs[k].sideInfo ==> !cs[k].frameEnd)
            && (forall k :: 0 <= k < j && !cs[k].config && !cs[k].sideInfo ==>
                  (forall l :: k < l < j ==> cs[l].config || cs[l].sideInfo) ==> cs[k].frameEnd)
    decreases i
  {
    var p := DataBefore(cs, i);
    if !(p < 0 || cs[p].frameEnd) {
      FrameStartMeans(cs, p);
    }
  }

  /** Where in the stream the frames of the I-frame chunks begin, one for each such chunk. */
  function FrameKeys(cs: seq<Chunk>): seq<nat> {
    if cs == [] then []
    else
      var i := |cs| - 1;
      FrameKeys(cs[..i])
      + if !cs[i].config && !cs[i].sideInfo && cs[i].keyframe then [|Payload(cs[..FrameStart(cs, i)])|] else []
  }

  lemma {:induction false} DataBeforePrefix(cs: seq<Chunk>, m: nat, i: nat)
    requires i <= m <= |cs|
    ensures DataBefore(cs[..m], i) == DataBefore(cs, i)
    decreases i
  {
    if i > 0 && !IsData(cs[i - 1]) {
      DataBeforePrefix(cs, m, i - 1);
    }
  }

  lemma {:induction false} FrameStartPrefix(cs: seq<Chunk>, m: nat, i: nat)
    requires i < m <= |cs|
    ensures FrameStart(cs[..m], i) == FrameStart(cs, i)
    decreases i
  {
    DataBeforePrefix(cs, m, i);
    var p := DataBefore(cs, i);
    if !(p < 0 || cs[p].frameEnd) {
      FrameStartPrefix(cs, m, p);
    }
  }

  /** Where the frame begins that a data chunk behind cs would belong to. */
  function OpenFrom(cs: seq<Chunk>): nat {
    var p := DataBefore(cs, |cs|);
    if p < 0 || cs[p].frameEnd then |Payload(cs)| else |Payload(cs[..FrameStart(cs, p)])|
  }

  lemma OpenFromSnoc(init: seq<Chunk>, c: Chunk)
    ensures var cs := init + [c];
            if IsData(c) then |Payload(cs[..FrameStart(cs, |init|)])| == OpenFrom(init)
            else OpenFrom(cs) == OpenFrom(init) && DataBefore(cs, |cs|) == DataBefore(init, |init|)
  {
    var cs := init + [c];
    assert cs[..|init|] == init;
    DataBeforePrefix(cs, |init|, |init|);
    var p := DataBefore(init, |init|);
    if p >= 0 {
      FrameStartPrefix(cs, |init|, p);
      assert cs[..FrameStart(init, p)] == init[..FrameStart(init, p)];
    }
  }

  lemma PayloadSnoc(init: seq<Chunk>, c: Chunk)
    ensures Payload(init + [c]) == Payload(init) + if IsData(c) then c.data else []
  {
    assert (init + [c])[..|init|] == init;
  }

  lemma FrameKeysSnoc(init: seq<Chunk>, c: Chunk)
    ensures FrameKeys(init + [c]) ==
            FrameKeys(init) + if !c.config && !c.sideInfo && c.keyframe then [OpenFrom(init)] else []
  {
    var cs := init + [c];
    assert cs[..|init|] == init;
    OpenFromSnoc(init, c);
  }

  /** Keeping track chunk by chunk comes to the same: the entries of the index are where frames
      of I-frame chunks begin. */
  lemma {:induction false} TrackIsRecording(cs: seq<Chunk>, n: nat)
    requires n > 0
    ensures var tr, p := After(cs, n), DataBefore(cs, |cs|);
            && tr.total == |Payload(cs)| && tr.keys == FrameKeys(cs)
            && FrameBegin(tr) == OpenFrom(cs) && (tr.frame < 0 <==> p < 0 || cs[p].frameEnd)
  {
    if cs != [] {
      var init, c := cs[..|cs| - 1], cs[|cs| - 1];
      assert cs == init + [c];
      TrackIsRecording(init, n);
      PayloadSnoc(init, c);
      FrameKeysSnoc(init, c);
      OpenFromSnoc(init, c);
    }
  }

  /** Whether the ring counts as wrapped: some data chunk has bytes on both sides of a multiple
      of the ring size. */
  lemma {:induction false} WrappedMeans(cs: seq<Chunk>, n: nat)
    requires n > 0
    ensures After(cs, n).wrapped <==>
            exists i :: 0 <= i < |cs| && !cs[i].config && !cs[i].sideInfo
                        && Straddles(|Payload(cs[..i])|, |cs[i].data|, n)
  {
    if cs != [] {
      var init, c := cs[..|cs| - 1], cs[|cs| - 1];
      WrappedMeans(init, n);
      TrackIsRecording(init, n);
      CrossesMeans(|Payload(init)|, |c.data|, n);
      forall i | 0 <= i < |init|
        ensures init[..i] == cs[..i] && init[i] == cs[i]
      {
      }
      assert cs[..|init|] == init;
    }
  }

  ghost predicate Straddles(t: nat, length: nat, n: nat) {
    exists k: nat :: t < n * k < t + length
  }

  lemma CrossesMeans(t: nat, length: nat, n: nat)
    requires n > 0
    ensures Crosses(t, length, n) <==> Straddles(t, length, n)
  {
    var q, r := t / n, t % n;
    assert t == n * q + r;
    assert n * (q + 1) == n * q + n;
    if Crosses(t, length, n) {
      assert t < n * (q + 1) < t + length;
    }
    if Straddles(t, length, n) {
      var k: nat :| t < n * k < t + length;
      assert n * (k - q) == n * k - n * q;
      MulApart(n, k - q);
    }
  }

  /** All the header bytes there are. */
  function ConfigBytes(cs: seq<Chunk>): seq<Byte> {
    if cs == [] then []
    else ConfigBytes(cs[..|cs| - 1]) + if cs[|cs| - 1].config then cs[|cs| - 1].data else []
  }

  /** A header of at most 29 bytes is kept whole, and never more than that. */
  lemma {:induction false} HeaderMeans(cs: seq<Chunk>, n: nat)
    requires n > 0
    ensures |After(cs, n).header| <= 29
    ensures |ConfigBytes(cs)| <= 29 ==> After(cs, n).header == ConfigBytes(cs)
  {
    if cs != [] {
      HeaderMeans(cs[..|cs| - 1], n);
    }
  }

  /** Header and side-info buffers are not part of the stream, all others are. */
  lemma PayloadIsData(cs: seq<Chunk>, c: Chunk)
    ensures Payload(cs + [c]) == if c.config || c.sideInfo then Payload(cs) else Payload(cs) + c.data
  {
    PayloadSnoc(cs, c);
  }

  // ---- What the ring can cope with ----

  /** The I-frames still in the ring, and with them the one that c belongs to. */
  function InReach(tr: Track, c: Chunk, n: nat): seq<nat> {
    var marks := Surviving(tr.keys, tr.total - n);
    if c.keyframe then marks + [FrameBegin(tr)] else marks
  }

  /** A chunk the ring can cope with: it fits the ring, the index has room, there is an
      I-frame, and one that began before this chunk stays in the ring. */
  ghost predicate Copes(tr: Track, c: Chunk, n: nat) {
    IsData(c) ==>
      && |c.data| <= n
      && (c.keyframe ==> |Surviving(tr.keys, tr.total - n)| + 1 < IFRAME_BUFSIZE)
      && InReach(tr, c, n) != []
      && SomeSurvivor(InReach(tr, c, n), tr.total, |c.data|, n)
  }

  ghost predicate Manageable(cs: seq<Chunk>, n: nat)
    requires n > 0
  {
    forall i :: 0 <= i < |cs| ==> Copes(After(cs[..i], n), cs[i], n)
  }

  /** What the eviction makes of the entries marks when it comes to an end among them: a lone
      entry is not looked at; otherwise the loop stops at the first outside the window. */
  ghost predicate Evicts(marks: seq<nat>, kept: seq<nat>, t: nat, lap: nat, n: nat, length: nat) {
    if |marks| == 1 then kept == marks
    else exists i :: 0 <= i < |marks| && kept == marks[i..] && StopsAt(marks, i, t, lap, n, length)
  }

  ghost predicate StopsAt(marks: seq<nat>, i: nat, t: nat, lap: nat, n: nat, length: nat)
    requires i < |marks|
  {
    && !InWindow(t - lap, length, Pos(marks[i], lap, n), n)
    && forall j :: 0 <= j < i ==> InWindow(t - lap, length, Pos(marks[j], lap, n), n)
  }

  ghost predicate AllReached(marks: seq<nat>, t: nat, n: nat) {
    forall j :: 0 <= j < |marks| ==> t <= marks[j] + n
  }

  /** With two entries or more, or none, a survivor is all that matters. */
  lemma SurvivorStopsLoop(marks: seq<nat>, t: nat, lap: nat, n: nat, length: nat)
    requires AllLive(marks, t, n) && |marks| != 1 && lap <= t < lap + n && length <= n
    ensures SomeSurvivor(marks, t, length, n) <==>
            exists kept :: Evicts(marks, kept, t, lap, n, length) && AllReached(kept, t + length, n)
  {
    OutsideIsSurvivor(marks, t, lap, n, length);
    if SomeSurvivor(marks, t, length, n) {
      var j :| 0 <= j < |marks| && marks[j] + n >= t + length && (marks[j] < t || length == 0);
      var i := FirstStop(marks, t, lap, n, length, j);
      SuffixReached(marks, i, t, n, length);
      assert Evicts(marks, marks[i..], t, lap, n, length);
    }
  }

  lemma SuffixReached(marks: seq<nat>, i: nat, t: nat, n: nat, length: nat)
    requires AllLive(marks, t, n) && i < |marks| && marks[i] + n >= t + length
    ensures AllReached(marks[i..], t + length, n)
  {
    AllLiveAscending(marks, t, n);
  }

  /** The loop condition fails exactly for the entries that stay. */
  lemma OutsideIsSurvivor(marks: seq<nat>, t: nat, lap: nat, n: nat, length: nat)
    requires AllLive(marks, t, n) && lap <= t < lap + n && length <= n
    ensures forall j :: 0 <= j < |marks| ==>
              (InWindow(t - lap, length, Pos(marks[j], lap, n), n) <==>
                 !(marks[j] + n >= t + length && (marks[j] < t || length == 0)))
  {
    AllLiveAscending(marks, t, n);
    forall j | 0 <= j < |marks|
      ensures InWindow(t - lap, length, Pos(marks[j], lap, n), n) <==>
              !(marks[j] + n >= t + length && (marks[j] < t || length == 0))
    {
      WindowMeansOverwritten(t, lap, n, length, marks[j]);
    }
  }

  lemma {:induction false} FirstStop(marks: seq<nat>, t: nat, lap: nat, n: nat, length: nat, j: nat) returns (i: nat)
    requires j < |marks| && !InWindow(t - lap, length, Pos(marks[j], lap, n), n)
    ensures i <= j && StopsAt(marks, i, t, lap, n, length)
  {
    if k :| 0 <= k < j && !InWindow(t - lap, length, Pos(marks[k], lap, n), n) {
      i := FirstStop(marks, t, lap, n, length, k);
    } else {
      i := j;
    }
  }

  /** The condition is exact: a data chunk that fits, and for which the index has room, is one
      the ring can cope with if and only if the eviction comes to an end inside the index and
      every entry it leaves is still in the ring when the chunk has been written.  lap is where
      the current lap of the ring began. */
  lemma CopesIsExact(tr: Track, c: Chunk, n: nat, lap: nat)
    requires IsData(c) && |c.data| <= n && lap <= tr.total < lap + n
    requires var marks := Surviving(tr.keys, tr.total - n);
             && (c.keyframe ==> |marks| + 1 < IFRAME_BUFSIZE) && AllLive(marks, tr.total, n)
             && FrameBegin(tr) <= tr.total && (marks != [] ==> marks[|marks| - 1] <= FrameBegin(tr))
    ensures Copes(tr, c, n) <==>
            exists kept :: Evicts(InReach(tr, c, n), kept, tr.total, lap, n, |c.data|)
                           && AllReached(kept, tr.total + |c.data|, n)
  {
    var marks, pushed := Surviving(tr.keys, tr.total - n), InReach(tr, c, n);
    if |pushed| == 1 {
      assert Evicts(pushed, pushed, tr.total, lap, n, |c.data|);
      assert AllReached(pushed, tr.total + |c.data|, n) <==> tr.total + |c.data| <= pushed[0] + n;
    } else {
      if c.keyframe {
        AllLiveAscending(marks, tr.total, n);
        AllLiveSnoc(marks, FrameBegin(tr), tr.total, n);
      }
      SurvivorStopsLoop(pushed, tr.total, lap, n, |c.data|);
    }
  }

  /** The first chunk belongs to an I-frame, and from then on the ring, with the chunk in it,
      still reaches back to the latest I-frame before it: that is enough. */
  lemma ReachingBackIsEnough(tr: Track, c: Chunk, n: nat)
    requires |c.data| <= n && (c.keyframe ==> |tr.keys| + 1 < IFRAME_BUFSIZE) && tr.frame <= tr.total
    requires if tr.keys == [] then c.keyframe && tr.total == 0
             else var last := tr.keys[|tr.keys| - 1];
                  (last < tr.total || c.data == []) && tr.total + |c.data| <= last + n
    ensures Copes(tr, c, n)
  {
    var marks := Surviving(tr.keys, tr.total - n);
    SurvivingIsSuffix(tr.keys, tr.total - n);
    if marks != [] {
      assert marks[|marks| - 1] == tr.keys[|tr.keys| - 1] == InReach(tr, c, n)[|marks| - 1];
    } else {
      assert tr.keys == [];
    }
  }

  /** Reaching back to the latest I-frame is just what the eviction needs. */
  lemma LastKeyDecides(marks: seq<nat>, frame: nat, keyframe: bool, t: nat, length: nat, n: nat)
    requires AllLive(marks, t, n) && marks != [] && marks[|marks| - 1] < t && 0 < length <= n
    requires marks[|marks| - 1] <= frame <= t
    requires keyframe || |marks| > 1
    ensures var pushed := if keyframe then marks + [frame] else marks;
            (SomeSurvivor(pushed, t, length, n) <==>
               t + length <= marks[|marks| - 1] + n || (keyframe && frame < t && t + length <= frame + n))
  {
    AllLiveAscending(marks, t, n);
    var pushed := if keyframe then marks + [frame] else marks;
    var last := |marks| - 1;
    assert pushed[last] == marks[last];
    if keyframe {
      assert pushed[last + 1] == frame;
    }
  }

  /** Without a survivor every entry up to the write position passes for overwritten, so the
      loop, whose guard is not tested again, runs on beyond it; with one it does not. */
  lemma LoopStopsExactlyAtSurvivors(marks: seq<nat>, t: nat, lap: nat, n: nat, length: nat)
    requires AllLive(marks, t, n) && |marks| > 1 && lap <= t < lap + n && length <= n
    ensures (forall j :: 0 <= j < |marks| ==> InWindow(t - lap, length, Pos(marks[j], lap, n), n))
            <==> !SomeSurvivor(marks, t, length, n)
  {
    OutsideIsSurvivor(marks, t, lap, n, length);
  }

  lemma {:induction false} SurvivingSnoc(keys: seq<nat>, bound: int, bound': int, x: nat)
    requires bound <= bound'
    ensures Surviving(Surviving(keys, bound) + [x], bound') == Surviving(keys + [x], bound')
    ensures Surviving(Surviving(keys, bound), bound') == Surviving(keys, bound')
  {
    if keys != [] && keys[0] < bound {
      SurvivingSnoc(keys[1..], bound, bound', x);
      assert (keys + [x])[1..] == keys[1..] + [x];
    }
  }

  /** A recorder that has received the recording tr: the index holds exactly the I-frames that
      are still in the ring. */
  ghost predicate Shows(r: CircularRecorder, tr: Track)
    reads r, r.ring, r.index
  {
    && tr.total == |r.ring.stream|
    && r.index.marks == Surviving(tr.keys, tr.total - r.ring.cbBuff.Length)
    && (if r.frameStart == -1 then tr.frame < 0 else tr.frame == r.frameOff)
    && r.header == tr.header && r.ring.cbWrap == tr.wrapped
  }

  /** What the recorder needs of a chunk can be told from the recording. */
  lemma CopesIsAccepts(r: CircularRecorder, tr: Track, c: Chunk)
    requires Shows(r, tr)
    ensures r.Pushed(c) == InReach(tr, c, r.ring.cbBuff.Length)
    ensures Copes(tr, c, r.ring.cbBuff.Length) <==> r.Accepts(c)
  {
  }

  /** Indexing a frame and evicting leaves the I-frames of the longer stream still in the ring. */
  lemma IndexStaysExact(keys: seq<nat>, frame: nat, keyframe: bool, t: nat, length: nat, n: nat)
    requires var marks := Surviving(keys, t - n);
             var pushed := if keyframe then marks + [frame] else marks;
             |pushed| == 1 ==> pushed[0] + n >= t + length
    ensures var marks := Surviving(keys, t - n);
            var pushed := if keyframe then marks + [frame] else marks;
            (if |pushed| == 1 then pushed else Surviving(pushed, t + length - n))
            == Surviving(if keyframe then keys + [frame] else keys, t + length - n)
  {
    SurvivingSnoc(keys, t - n, t + length - n, frame);
  }

  method FeedData(r: CircularRecorder, c: Chunk, ghost tr: Track)
    requires r.Valid() && Shows(r, tr) && Copes(tr, c, r.ring.cbBuff.Length) && IsData(c)
    modifies r.Repr()
    ensures r.Valid() && Shows(r, Tracked(tr, c, r.ring.cbBuff.Length))
    ensures r.ring.stream == old(r.ring.stream) + c.data
  {
    CopesIsAccepts(r, tr, c);
    IndexStaysExact(tr.keys, FrameBegin(tr), c.keyframe, tr.total, |c.data|, r.ring.cbBuff.Length);
    CrossesIs(r.ring.cbBuff[..], r.ring.stream, r.ring.lap, |c.data|);
    r.EncoderCallback(c);
  }

  /** One callback of a manageable recording. */
  method Feed(r: CircularRecorder, c: Chunk, ghost tr: Track)
    requires r.Valid() && Shows(r, tr) && Copes(tr, c, r.ring.cbBuff.Length)
    modifies r.Repr()
    ensures r.Valid() && Shows(r, Tracked(tr, c, r.ring.cbBuff.Length))
    ensures r.ring.stream == old(r.ring.stream) + if IsData(c) then c.data else []
  {
    if IsData(c) {
      FeedData(r, c, tr);
    } else {
      r.EncoderCallback(c);
    }
  }

  /** Record a whole manageable stream. */
  method Record(cs: seq<Chunk>, count: nat) returns (r: CircularRecorder)
    requires count > 0 && Manageable(cs, count)
    ensures fresh(r.Repr()) && r.Valid() && r.ring.cbBuff.Length == count
    ensures r.ring.stream == Payload(cs) && Shows(r, After(cs, count))
  {
    r := new CircularRecorder(count);
    var i := 0;
    while i < |cs|
      invariant 0 <= i <= |cs|
      invariant fresh(r.Repr()) && r.Valid() && r.ring.cbBuff.Length == count
      invariant r.ring.stream == Payload(cs[..i])
      invariant Shows(r, After(cs[..i], count))
    {
      Feed(r, cs[i], After(cs[..i], count));
      assert cs[..i + 1][..i] == cs[..i];
      i := i + 1;
    }
    assert cs[..i] == cs;
  }

  /** The clip of a recording, s being its stream and keys where its I-frames begin.  When the
      ring has wrapped and the earliest I-frame still in it lies at or behind the write pointer,
      the saved file is the header followed by one contiguous piece of the stream, from that
      I-frame to the last byte received; otherwise older bytes follow.  A ring not flagged as
      wrapped gives its current lap. */
  ghost predicate IsClip(out: seq<Byte>, header: seq<Byte>, wrapped: bool, keys: seq<nat>, s: seq<Byte>, n: nat)
    requires n > 0
  {
    if !wrapped then out == header + s[LapStart(|s|, n)..]
    else
      var inRing := Surviving(keys, |s| - n);
      && |s| > n && inRing != [] && inRing[0] < |s| <= inRing[0] + n
      && var o := inRing[0];
         && out == header + (s[o..] + if Behind(o, |s|, n) then [] else s[|s| - n..o])
         && (out == header + s[o..] <==> Behind(o, |s|, n))
  }

  /** The clip of a manageable recording, in terms of the chunks alone. */
  method RecordAndSave(cs: seq<Chunk>, count: nat) returns (out: seq<Byte>)
    requires count > 0 && Manageable(cs, count)
    ensures IsClip(out, After(cs, count).header, After(cs, count).wrapped, FrameKeys(cs), Payload(cs), count)
  {
    TrackIsRecording(cs, count);
    var r := Record(cs, count);
    out := r.Save();
    AllLiveAscending(r.index.marks, |r.ring.stream|, count);
  }

  // ---- Recordings that show the limits ----

  lemma OneMore(cs: seq<Chunk>, c: Chunk, n: nat)
    requires n > 0 && Manageable(cs, n) && Copes(After(cs, n), c, n)
    ensures Manageable(cs + [c], n) && After(cs + [c], n) == Tracked(After(cs, n), c, n)
  {
    var all := cs + [c];
    assert all[..|cs|] == cs;
    forall i | 0 <= i < |all|
      ensures Copes(After(all[..i], n), all[i], n)
    {
      if i < |cs| {
        assert all[..i] == cs[..i];
      }
    }
  }

  /** An I-frame in one chunk. */
  function IFrame(length: nat): Chunk {
    Chunk(seq(length, _ => 'i'), false, false, true, true)
  }

  /** One more I-frame in a recording for a ring of 4. */
  lemma OneMoreIFrame(cs: seq<Chunk>, tr: Track, length: nat) returns (more: seq<Chunk>)
    requires Manageable(cs, 4) && After(cs, 4) == tr
    requires 0 < length <= 4 && |tr.keys| + 1 < IFRAME_BUFSIZE && tr.frame == -1
    requires if tr.keys == [] then tr.total == 0
             else tr.keys[|tr.keys| - 1] < tr.total && tr.total + length <= tr.keys[|tr.keys| - 1] + 4
    ensures Manageable(more, 4)
    ensures After(more, 4) == Track(tr.total + length, -1, tr.keys + [tr.total], tr.header,
                                    tr.wrapped || Crosses(tr.total, length, 4))
  {
    ReachingBackIsEnough(tr, IFrame(length), 4);
    OneMore(cs, IFrame(length), 4);
    more := cs + [IFrame(length)];
  }

  lemma TwoIFrames() returns (cs: seq<Chunk>)
    ensures Manageable(cs, 4) && After(cs, 4) == Track(2, -1, [0, 1], [], false)
  {
    cs := OneMoreIFrame([], NOTHING, 1);
    assert [] + [0] == [0] && !Crosses(0, 1, 4);
    cs := OneMoreIFrame(cs, Track(1, -1, [0], [], false), 1);
    assert [0] + [1] == [0, 1];
  }

  /** I-frames of 1, 1, 3, 1 and 1 bytes in a ring of 4: the clip is not one piece of the stream. */
  lemma NotOnePieceWitness() returns (cs: seq<Chunk>)
    ensures Manageable(cs, 4) && After(cs, 4) == Track(7, -1, [0, 1, 2, 5, 6], [], true)
    ensures Surviving([0, 1, 2, 5, 6], 7 - 4) == [5, 6] && !Behind(5, 7, 4)
  {
    cs := TwoIFrames();
    cs := OneMoreIFrame(cs, Track(2, -1, [0, 1], [], false), 3);
    assert [0, 1] + [2] == [0, 1, 2] && Crosses(2, 3, 4);
    cs := OneMoreIFrame(cs, Track(5, -1, [0, 1, 2], [], true), 1);
    assert [0, 1, 2] + [5] == [0, 1, 2, 5];
    cs := OneMoreIFrame(cs, Track(6, -1, [0, 1, 2, 5], [], true), 1);
    assert [0, 1, 2, 5] + [6] == [0, 1, 2, 5, 6];
    FromFive([0, 1, 2, 5, 6]);
  }

  lemma FromFive(keys: seq<nat>)
    requires keys == [0, 1, 2, 5, 6]
    ensures Surviving(keys, 3) == [5, 6]
  {
    SurvivingIsSuffix(keys, 3);
    var r := Surviving(keys, 3);
    assert keys[2] < 3 <= keys[3];
    assert |r| == 2;
  }

  /** Two I-frames of one byte in a ring of 4, then a chunk of 4 bytes: no entry of the index
      stops the eviction loop. */
  lemma NoSurvivorWitness() returns (cs: seq<Chunk>, c: Chunk, marks: seq<nat>)
    ensures Manageable(cs, 4) && IsData(c) && |c.data| <= 4 && !c.keyframe
    ensures marks == Surviving(After(cs, 4).keys, After(cs, 4).total - 4) && |marks| > 1
    ensures !SomeSurvivor(marks, After(cs, 4).total, |c.data|, 4)
    ensures forall j :: 0 <= j < |marks| ==> InWindow(After(cs, 4).total, |c.data|, Pos(marks[j], 0, 4), 4)
  {
    cs := TwoIFrames();
    c := Chunk(seq(4, _ => 'p'), false, false, false, true);
    marks := [0, 1];
  }

  /** One I-frame of one byte in a ring of 4, then a chunk of 4 bytes: the lone entry is kept
      although its frame is overwritten, and a ring so wrapped is saved from there. */
  lemma LoneEntryWitness() returns (cs: seq<Chunk>, c: Chunk)
    ensures Manageable(cs, 4) && IsData(c) && |c.data| <= 4 && !c.keyframe
    ensures var tr, kept := After(cs, 4), [0];
            && InReach(tr, c, 4) == kept && Evicts(InReach(tr, c, 4), kept, tr.total, 0, 4, |c.data|)
            && !AllReached(kept, tr.total + |c.data|, 4) && Tracked(tr, c, 4).wrapped
  {
    cs := OneMoreIFrame([], NOTHING, 1);
    c := Chunk(seq(4, _ => 'p'), false, false, false, true);
    assert [] + [0] == [0];
    assert After(cs, 4).keys == [0] && Crosses(1, 4, 4);
  }

  /** A chunk before the first I-frame: the index is empty, but the guard tells only a lone
      entry from other cases, and every slot, zeroed at the start, lies in the window.  The
      loop does not come to an end. */
  lemma EmptyIndexWitness(c: Chunk, n: nat)
    requires IsData(c) && !c.keyframe && 0 < |c.data| <= n
    ensures NextSlot(0) == 1 && NextSlot(59999) == 0 && InWindow(0, |c.data|, 0, n)
    ensures InReach(NOTHING, c, n) == [] && !Copes(NOTHING, c, n)
    ensures !exists kept :: Evicts([], kept, 0, 0, n, |c.data|)
  {
  }
}

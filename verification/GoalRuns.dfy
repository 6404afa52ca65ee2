/** The goal protocol over whole runs: what the messages of a frame say about the frames
    before it. */
module GoalRuns {
  import opened BallAnalysis
  import opened GoalProtocol

  /** The tracker after the frames h. */
  function Run(h: seq<Input>): Tracker {
    if h == [] then START else Updated(Run(h[..|h| - 1]), h[|h| - 1])
  }

  /** The messages sent in the last of the frames h. */
  function Sent(h: seq<Input>): seq<Message>
    requires h != []
  {
    Messages(Run(h[..|h| - 1]), h[|h| - 1])
  }

  // ---- What the tracker remembers ----

  /** The sightings among the frames h, which are numbered from 1. */
  function Sightings(h: seq<Input>): seq<Seen> {
    if h == [] then []
    else
      var x := h[|h| - 1];
      Sightings(h[..|h| - 1]) + if x.found then [Seen(|h|, x.ball)] else []
  }

  /** How many frames at the end of h are without the ball. */
  function Missing(h: seq<Input>): (n: nat)
    ensures n <= |h|
    ensures forall i :: |h| - n <= i < |h| ==> !h[i].found
    ensures n < |h| ==> h[|h| - n - 1].found
  {
    if h == [] || h[|h| - 1].found then 0 else Missing(h[..|h| - 1]) + 1
  }

  lemma {:induction false} RunRemembers(h: seq<Input>)
    ensures Run(h).frame == |h|
    ensures Run(h).seen == Sightings(h)
    ensures Run(h).missing == Missing(h) + if Missing(h) == |h| then NEVER_SEEN else 0
  {
    if h != [] {
      RunRemembers(h[..|h| - 1]);
      assert Sightings(h[..|h| - 1]) + [] == Sightings(h[..|h| - 1]);
    }
  }

  /** The latest sighting is the one before the frames without the ball. */
  lemma {:induction false} LatestSighting(h: seq<Input>)
    ensures var n := Missing(h);
            Recent(Sightings(h), 0) == if n < |h| then Seen(|h| - n, h[|h| - n - 1].ball) else Seen(0, ORIGIN)
  {
    if h != [] {
      var init := h[..|h| - 1];
      LatestSighting(init);
      if !h[|h| - 1].found {
        assert Sightings(h) == Sightings(init);
      }
    }
  }

  // ---- Goals ----

  ghost predicate SendsGoal(h: seq<Input>) {
    h != [] && exists m :: m in Sent(h) && m.GOAL?
  }

  /** The frame of the latest goal message, 0 if there was none. */
  ghost function LatestGoal(h: seq<Input>): nat {
    if h == [] then 0 else if SendsGoal(h) then |h| else LatestGoal(h[..|h| - 1])
  }

  /** The ball was last seen in a goal, 16 frames ago. */
  predicate VanishedInGoal(h: seq<Input>) {
    && |h| > GOAL_DELAY + 1
    && (forall i :: |h| - GOAL_DELAY - 1 <= i < |h| ==> !h[i].found)
    && h[|h| - GOAL_DELAY - 2].found
    && GoalOf(h[|h| - GOAL_DELAY - 2].ball) != 0
  }

  lemma {:induction false} MissingIs(h: seq<Input>, n: nat)
    requires n < |h| && h[|h| - n - 1].found && forall i :: |h| - n <= i < |h| ==> !h[i].found
    ensures Missing(h) == n
  {
    if n > 0 {
      var init := h[..|h| - 1];
      assert init[|init| - n] == h[|h| - n - 1];
      MissingIs(init, n - 1);
    }
  }

  /** Detection in terms of the frames alone. */
  lemma {:induction false} DetectionMeans(h: seq<Input>)
    requires h != []
    ensures DetectsGoal(Run(h[..|h| - 1]), h[|h| - 1]) <==> VanishedInGoal(h)
    ensures VanishedInGoal(h) ==> Recent(Run(h[..|h| - 1]).seen, 0).ball == h[|h| - GOAL_DELAY - 2].ball
  {
    var init := h[..|h| - 1];
    RunRemembers(init);
    LatestSighting(init);
    if VanishedInGoal(h) {
      MissingIs(init, GOAL_DELAY);
    }
    if DetectsGoal(Run(init), h[|h| - 1]) {
      assert Missing(init) == GOAL_DELAY < |init|;
    }
  }

  lemma {:induction false} SendsGoalIsReport(h: seq<Input>)
    requires h != []
    ensures SendsGoal(h) <==> ReportsGoal(Run(h[..|h| - 1]), h[|h| - 1])
  {
    var t, x := Run(h[..|h| - 1]), h[|h| - 1];
    var ms := Messages(t, x);
    if ReportsGoal(t, x) {
      assert ms[|ms| - 1].GOAL?;
      assert ms[|ms| - 1] in Sent(h);
    }
  }

  lemma {:induction false} RunRemembersGoal(h: seq<Input>)
    ensures Run(h).lastGoal == LatestGoal(h)
  {
    if h != [] {
      RunRemembersGoal(h[..|h| - 1]);
      SendsGoalIsReport(h);
      RunRemembers(h[..|h| - 1]);
    }
  }

  /** Exactly when a goal is sent, and which: the ball was last seen 16 frames ago, in a goal,
      and the latest goal message is at least 1.5 seconds old. */
  lemma {:induction false} GoalMeans(h: seq<Input>)
    requires h != []
    ensures SendsGoal(h) <==>
            VanishedInGoal(h) && |h| - LatestGoal(h[..|h| - 1]) >= Trunc(1.5 * h[|h| - 1].fps)
    ensures forall m :: m in Sent(h) && m.GOAL? ==>
              && |h| > GOAL_DELAY + 1
              && m.team == GoalOf(h[|h| - GOAL_DELAY - 2].ball) != 0
              && m.player == WhoScored(RecentBars(Sightings(h), LookBack(h[|h| - 1].fps)), m.team)
  {
    var init := h[..|h| - 1];
    DetectionMeans(h);
    SendsGoalIsReport(h);
    RunRemembers(init);
    RunRemembersGoal(init);
    if !h[|h| - 1].found {
      assert Sightings(h) == Sightings(init);
    }
  }

  /** The ball was seen in frame |h| - 16 and in none since. */
  predicate GoneFor16(h: seq<Input>) {
    |h| >= 17 && h[|h| - 17].found && forall i :: |h| - 16 <= i < |h| ==> !h[i].found
  }

  lemma {:induction false} VanishedMeans(h: seq<Input>)
    ensures VanishedInGoal(h) <==>
            GoneFor16(h) && (InLeftGoal(h[|h| - 17].ball) || InRightGoal(h[|h| - 17].ball))
    ensures VanishedInGoal(h) ==> h[|h| - GOAL_DELAY - 2] == h[|h| - 17]
  {
    if |h| >= 17 {
      GoalOfMeans(h[|h| - 17].ball);
    }
  }

  /** When a goal is sent, on positions: the ball was last seen 16 frames ago, in the left or in
      the right goal, and the latest goal is old enough. */
  lemma {:induction false} GoalWhen(h: seq<Input>)
    requires h != []
    ensures SendsGoal(h) <==>
            && GoneFor16(h) && (InLeftGoal(h[|h| - 17].ball) || InRightGoal(h[|h| - 17].ball))
            && |h| - LatestGoal(h[..|h| - 1]) >= Trunc(1.5 * h[|h| - 1].fps)
  {
    GoalMeans(h);
    VanishedMeans(h);
  }

  /** Which goal: team 1 for the left one, team 2 for the right one. */
  lemma {:induction false} GoalTeam(h: seq<Input>, m: Message)
    requires h != [] && m in Sent(h) && m.GOAL?
    ensures GoneFor16(h)
    ensures m.team == 1 <==> InLeftGoal(h[|h| - 17].ball)
    ensures m.team == 2 <==> InRightGoal(h[|h| - 17].ball)
  {
    assert SendsGoal(h);
    GoalMeans(h);
    VanishedMeans(h);
    GoalOfMeans(h[|h| - 17].ball);
  }

  lemma {:induction false} LatestGoalIsLate(h: seq<Input>, m: nat)
    requires 0 < m <= |h| && SendsGoal(h[..m])
    ensures LatestGoal(h) >= m
    decreases |h|
  {
    if m == |h| {
      assert h[..m] == h;
    } else {
      assert h[..|h| - 1][..m] == h[..m];
      LatestGoalIsLate(h[..|h| - 1], m);
    }
  }

  /** Two goals are at least 1.5 seconds apart. */
  lemma {:induction false} GoalsAreSpaced(init: seq<Input>, x: Input, m: nat)
    requires 0 < m <= |init| && SendsGoal(init[..m]) && SendsGoal(init + [x])
    ensures |init| + 1 - m >= Trunc(1.5 * x.fps)
  {
    GoalMeans(init + [x]);
    assert (init + [x])[..|init|] == init;
    LatestGoalIsLate(init, m);
  }

  lemma {:induction false} VanishedTwice(h: seq<Input>, m: nat)
    requires 0 < m < |h| && VanishedInGoal(h[..m]) && VanishedInGoal(h)
    ensures h[|h| - GOAL_DELAY - 2].found && |h| - GOAL_DELAY - 2 >= m
  {
    var i := |h| - GOAL_DELAY - 2;
    assert forall j :: m - GOAL_DELAY - 1 <= j < m ==> !h[..m][j].found && h[..m][j] == h[j];
  }

  /** One goal for each disappearance: between two goals the ball was found again. */
  lemma {:induction false} OneGoalPerDisappearance(h: seq<Input>, m: nat)
    requires 0 < m < |h| && SendsGoal(h[..m]) && SendsGoal(h)
    ensures exists i :: m <= i < |h| && h[i].found
  {
    assert VanishedInGoal(h) by {
      GoalMeans(h);
    }
    assert VanishedInGoal(h[..m]) by {
      GoalMeans(h[..m]);
    }
    VanishedTwice(h, m);
  }

  // ---- SAVE and FAST ----

  // What a frame does to the delayed signals.
  datatype Signal = Signal(save: bool, fast: bool, goal: bool)

  predicate Triggers(s: Signal, fast: bool) {
    if fast then s.fast else s.save
  }

  /** The counter of the one or the other signal after some frames. */
  function Timer(ss: seq<Signal>, fast: bool, limit: int): int {
    if ss == [] then 0
    else
      var last := ss[|ss| - 1];
      Counter(Timer(ss[..|ss| - 1], fast, limit), limit, Triggers(last, fast), last.goal)
  }

  /** The signal was triggered k frames before the end of ss and nothing touched it since. */
  predicate Pending(ss: seq<Signal>, fast: bool, k: nat) {
    && 0 < k <= |ss|
    && Triggers(ss[|ss| - k], fast)
    && forall i :: |ss| - k < i < |ss| ==> !Triggers(ss[i], fast) && !ss[i].goal
  }

  lemma {:induction false} PendingSnoc(init: seq<Signal>, last: Signal, fast: bool, k: nat)
    requires k > 0
    ensures Pending(init + [last], fast, k + 1) <==> Pending(init, fast, k) && !Triggers(last, fast) && !last.goal
  {
    var ss := init + [last];
    if Pending(ss, fast, k + 1) {
      assert ss[|ss| - 1] == last;
      forall i | |init| - k < i < |init|
        ensures !Triggers(init[i], fast) && !init[i].goal
      {
        assert ss[i] == init[i];
      }
    }
  }

  /** The counter counts the frames since the trigger, up to the delay. */
  lemma {:induction false} TimerMeans(ss: seq<Signal>, fast: bool, limit: nat)
    ensures 0 <= Timer(ss, fast, limit) <= limit + 1
    ensures forall k: nat :: Timer(ss, fast, limit) == k > 0 <==> Pending(ss, fast, k) && k <= limit + 1
  {
    if ss != [] {
      var init, last := ss[..|ss| - 1], ss[|ss| - 1];
      TimerMeans(init, fast, limit);
      assert init + [last] == ss;
      forall k: nat
        ensures Timer(ss, fast, limit) == k > 0 <==> Pending(ss, fast, k) && k <= limit + 1
      {
        if k > 1 {
          PendingSnoc(init, last, fast, k - 1);
        }
      }
    }
  }

  /** What the frames of h do to the signals. */
  function Signals(h: seq<Input>): (ss: seq<Signal>)
    ensures |ss| == |h|
  {
    if h == [] then []
    else
      var t, x := Run(h[..|h| - 1]), h[|h| - 1];
      Signals(h[..|h| - 1]) + [Signal(TriggersSave(t, x), TriggersFast(t, x), DetectsGoal(t, x))]
  }

  /** The delay of half a second, while the frame rate stands still. */
  predicate SteadyDelay(h: seq<Input>, limit: int) {
    forall i :: 0 <= i < |h| ==> Trunc(0.5 * h[i].fps) == limit
  }

  lemma {:induction false} RunKeepsTimers(h: seq<Input>, limit: int)
    requires SteadyDelay(h, limit)
    ensures Run(h).save == Timer(Signals(h), false, limit)
    ensures Run(h).fast == Timer(Signals(h), true, limit)
  {
    if h != [] {
      RunKeepsTimers(h[..|h| - 1], limit);
      var ss := Signals(h);
      assert ss[..|ss| - 1] == Signals(h[..|h| - 1]);
    }
  }

  lemma {:induction false} SignalsPrefix(h: seq<Input>, n: nat)
    requires n <= |h|
    ensures Signals(h[..n]) == Signals(h)[..n]
    decreases |h|
  {
    if n == |h| {
      assert h[..n] == h;
    } else {
      var init := h[..|h| - 1];
      assert init[..n] == h[..n];
      SignalsPrefix(init, n);
      assert Signals(h)[..n] == Signals(init)[..n];
    }
  }

  /** What the signals of frame g mean in terms of the frames. */
  lemma {:induction false} SignalMeans(h: seq<Input>, g: nat)
    requires 0 < g <= |h|
    ensures Signals(h)[g - 1].save == TriggersSave(Run(h[..g - 1]), h[g - 1])
    ensures Signals(h)[g - 1].fast == TriggersFast(Run(h[..g - 1]), h[g - 1])
    ensures Signals(h)[g - 1].goal == VanishedInGoal(h[..g])
  {
    SignalsPrefix(h, g);
    assert Signals(h)[g - 1] == Signals(h[..g])[g - 1];
    assert h[..g][..g - 1] == h[..g - 1];
    DetectionMeans(h[..g]);
  }

  function Delayed(fast: bool): Message {
    if fast then FAST else SAVE
  }

  lemma {:induction false} SentDelayed(t: Tracker, x: Input, fast: bool)
    ensures Delayed(fast) in Messages(t, x) <==> Ticked(if fast then t.fast else t.save, Trunc(0.5 * x.fps)).1
  {
  }

  /** Exactly when a delayed signal is sent: it was triggered limit + 1 frames ago, and in the
      frames since it was neither triggered again nor cancelled by a goal. */
  lemma {:induction false} DelayedMeans(h: seq<Input>, fast: bool, limit: nat)
    requires h != [] && SteadyDelay(h, limit)
    ensures Delayed(fast) in Sent(h) <==> Pending(Signals(h)[..|h| - 1], fast, limit + 1)
  {
    var init, x := h[..|h| - 1], h[|h| - 1];
    RunKeepsTimers(init, limit);
    SentDelayed(Run(init), x, fast);
    SignalsPrefix(h, |h| - 1);
    TimerMeans(Signals(init), fast, limit);
  }

  /** A goal within the delay cancels the signal: in no frame after the trigger is it sent,
      unless it is triggered again. */
  lemma {:induction false} GoalCancels(h: seq<Input>, fast: bool, limit: nat, g: nat, d: nat, m: nat)
    requires SteadyDelay(h, limit) && 0 < g < d <= |h| && d - g <= limit && g < m <= |h|
    requires Triggers(Signals(h)[g - 1], fast) && Signals(h)[d - 1].goal
    requires forall j :: g <= j < |h| ==> !Triggers(Signals(h)[j], fast)
    ensures Delayed(fast) !in Sent(h[..m])
  {
    DelayedMeans(h[..m], fast, limit);
    SignalsPrefix(h, m);
    var ss := Signals(h)[..m - 1];
    assert Signals(h[..m])[..m - 1] == ss;
    assert forall j :: 0 <= j < m - 1 ==> ss[j] == Signals(h)[j];
    var k := |ss| - (limit + 1);
    if m <= d {
      assert k < g - 1 < |ss|;
    } else {
      assert k < g - 1 || k == g - 1 || k >= g;
    }
  }

  // ---- SAVE and FAST on positions ----

  /** The squared distance on a field of 1.205 by 0.702 metres. */
  function Metres(b: Point, p: Point): real {
    var x, y := (p.x - b.x) * 1.205, (p.y - b.y) * 0.702;
    x * x + y * y
  }

  /** In frame |h| the ball was seen, at most ten frames after the sighting before, and this is
      not the beginning of the recording. */
  ghost predicate SeenAgain(h: seq<Input>)
    requires h != []
  {
    |h| > 100 && h[|h| - 1].found && Missing(h[..|h| - 1]) < 10
  }

  /** Where the ball was before. */
  function Previous(h: seq<Input>): Point
    requires |h| > 100
  {
    var n := Missing(h[..|h| - 1]);
    if n < |h| - 1 then h[|h| - 2 - n].ball else ORIGIN
  }

  /** The speed of a ball that has gone dist metres in some frames. */
  function Kmh(dist: real, frames: nat, fps: real): real
    requires frames > 0
  {
    dist * fps / frames as real * 3.6
  }

  /** At the height of the goals, and in the outer three tenths of the field. */
  predicate InFront(ball: Point) {
    0.31 < ball.y < 0.69 && (ball.x < 0.3 || ball.x > 0.7)
  }

  lemma {:induction false} FasterIsKmh(prev: Point, ball: Point, frames: nat, fps: real, limit: real, dist: real)
    requires frames > 0 && dist >= 0.0 && dist * dist == Metres(prev, ball) && limit > 0.0
    ensures Faster(prev, ball, frames, fps, limit) <==> Kmh(dist, frames, fps) > limit
  {
    MetresMeans(prev, ball);
    FasterMeans(prev, ball, frames, fps, limit, dist);
  }

  /** The triggers of one frame, the distance to the sighting before being given. */
  lemma {:induction false} TrackerTriggers(t: Tracker, x: Input, frames: nat, dist: real)
    requires frames == t.frame + 1 - Recent(t.seen, 0).frame > 0
    requires dist >= 0.0 && dist * dist == Metres(Recent(t.seen, 0).ball, x.ball)
    ensures TriggersSave(t, x) <==>
            x.found && frames <= 10 && t.frame + 1 > 100 && Kmh(dist, frames, x.fps) > 15.0 && InFront(x.ball)
    ensures TriggersFast(t, x) <==>
            x.found && frames <= 10 && t.frame + 1 > 100 && Kmh(dist, frames, x.fps) > 30.0 && !InFront(x.ball)
  {
    FasterIsKmh(Recent(t.seen, 0).ball, x.ball, frames, x.fps, 15.0, dist);
    FasterIsKmh(Recent(t.seen, 0).ball, x.ball, frames, x.fps, 30.0, dist);
    NearGoalMeans(x.ball);
  }

  lemma {:induction false} NearGoalMeans(ball: Point)
    ensures NearGoal(ball) <==> InFront(ball)
  {
  }

  lemma {:induction false} MetresMeans(b: Point, p: Point)
    ensures Metres(b, p) == SquaredDist(b, p)
  {
    var x, y := (p.x - b.x) * 1.205, (p.y - b.y) * 0.702;
    assert (b.x - p.x) * 1.205 == -x && (b.y - p.y) * 0.702 == -y;
    assert -x * -x == x * x && -y * -y == y * y;
  }

  /** A SAVE is triggered by a ball faster than 15 km/h in front of a goal, a FAST by any other
      faster than 30 km/h. */
  lemma {:induction false} TriggersMean(h: seq<Input>, dist: real)
    requires |h| > 100 && dist >= 0.0 && dist * dist == Metres(Previous(h), h[|h| - 1].ball)
    ensures var x, n := h[|h| - 1], Missing(h[..|h| - 1]);
            && (Signals(h)[|h| - 1].save <==> SeenAgain(h) && Kmh(dist, n + 1, x.fps) > 15.0 && InFront(x.ball))
            && (Signals(h)[|h| - 1].fast <==> SeenAgain(h) && Kmh(dist, n + 1, x.fps) > 30.0 && !InFront(x.ball))
  {
    var init, x := h[..|h| - 1], h[|h| - 1];
    var n := Missing(init);
    FramesSince(init);
    assert Recent(Run(init).seen, 0).ball == Previous(h);
    TrackerTriggers(Run(init), x, n + 1, dist);
    LastSignal(h);
  }

  /** The frames since the sighting before, and where it was. */
  lemma {:induction false} FramesSince(init: seq<Input>)
    ensures var t, n := Run(init), Missing(init);
            && t.frame == |init| && t.frame + 1 - Recent(t.seen, 0).frame == n + 1
            && Recent(t.seen, 0).ball == if n < |init| then init[|init| - n - 1].ball else ORIGIN
  {
    RunRemembers(init);
    LatestSighting(init);
  }

  lemma {:induction false} LastSignal(h: seq<Input>)
    requires h != []
    ensures var t, x := Run(h[..|h| - 1]), h[|h| - 1];
            Signals(h)[|h| - 1] == Signal(TriggersSave(t, x), TriggersFast(t, x), DetectsGoal(t, x))
  {
  }

  /** Before frame 101 there are no triggers. */
  lemma {:induction false} NoEarlyTriggers(h: seq<Input>)
    requires 0 < |h| <= 100
    ensures !Signals(h)[|h| - 1].save && !Signals(h)[|h| - 1].fast
  {
    LastSignal(h);
    RunRemembers(h[..|h| - 1]);
  }

  /** SAVE is sent when a save trigger is limit + 1 frames old and nothing has come between. */
  lemma {:induction false} SaveMeans(h: seq<Input>, limit: nat)
    requires h != [] && SteadyDelay(h, limit)
    ensures var g := |h| - limit - 2;
            SAVE in Sent(h) <==>
            g >= 0 && Signals(h)[g].save && forall i :: g < i < |h| - 1 ==> !Signals(h)[i].save && !Signals(h)[i].goal
  {
    DelayedMeans(h, false, limit);
    var ss := Signals(h)[..|h| - 1];
    assert forall i :: 0 <= i < |ss| ==> ss[i] == Signals(h)[i];
  }

  /** The same for FAST. */
  lemma {:induction false} FastMeans(h: seq<Input>, limit: nat)
    requires h != [] && SteadyDelay(h, limit)
    ensures var g := |h| - limit - 2;
            FAST in Sent(h) <==>
            g >= 0 && Signals(h)[g].fast && forall i :: g < i < |h| - 1 ==> !Signals(h)[i].fast && !Signals(h)[i].goal
  {
    DelayedMeans(h, true, limit);
    var ss := Signals(h)[..|h| - 1];
    assert forall i :: 0 <= i < |ss| ==> ss[i] == Signals(h)[i];
  }

  // ---- A game that begins with a goal ----

  lemma {:induction false} NoSightings(h: seq<Input>)
    requires forall i :: 0 <= i < |h| ==> !h[i].found
    ensures Sightings(h) == []
  {
    if h != [] {
      NoSightings(h[..|h| - 1]);
    }
  }

  lemma {:induction false} OneSighting(h: seq<Input>, at: nat)
    requires at < |h| && h[at].found && forall i :: 0 <= i < |h| && i != at ==> !h[i].found
    ensures Sightings(h) == [Seen(at + 1, h[at].ball)]
  {
    var init := h[..|h| - 1];
    if at < |h| - 1 {
      OneSighting(init, at);
    } else {
      NoSightings(init);
    }
  }

  lemma {:induction false} NoGoalYet(h: seq<Input>, at: nat)
    requires |h| <= at + GOAL_DELAY + 1 && forall i :: 0 <= i < |h| && i != at ==> !h[i].found
    ensures LatestGoal(h) == 0
  {
    if h != [] {
      NoGoalYet(h[..|h| - 1], at);
      GoalMeans(h);
      assert !VanishedInGoal(h);
    }
  }

  /** 99 frames without the ball, one with it in the right goal, 16 without. */
  function FirstGoal(): (h: seq<Input>)
    ensures |h| == 116
    ensures forall i {:trigger h[i]} :: 0 <= i < 116 ==>
              h[i].fps == 60.0 && (h[i].found <==> i == 99) && h[i].ball == Point(0.99, 0.5)
  {
    seq(116, i => Input(Point(0.99, 0.5), i == 99, 60.0))
  }

  /** The goal is credited to bar 1, where the ball was never seen. */
  lemma UnwrittenSlotsRun()
    ensures GOAL(2, 1) in Sent(FirstGoal())
    ensures forall i :: 0 <= i < |FirstGoal()| && FirstGoal()[i].found ==> BarOf(FirstGoal()[i].ball) != 1
  {
    var h := FirstGoal();
    GoalMeans(h);
    NoGoalYet(h[..115], 99);
    OneSighting(h, 99);
    assert VanishedInGoal(h);
    var m :| m in Sent(h) && m.GOAL?;
    UnwrittenSlotsSighting(Seen(100, Point(0.99, 0.5)));
    assert LookBack(60.0) == 150;
    assert m == GOAL(2, 1);
  }
}

/** From ball sightings to messages: the history ring, who scored, and the goal, SAVE and
    FAST signals. */
module GoalProtocol {
  import opened BallAnalysis

  const HISTORY_COUNT := 256
  const NEVER_SEEN := 1000
  const GOAL_DELAY := 15
  const BAR_THRESHOLD := 6
  const GOAL_WIDTH := 0.10
  const GOAL_HEIGHT := 0.38
  const FIELD_WIDTH := 1.205
  const FIELD_HEIGHT := 0.702
  const ORIGIN := Point(0.0, 0.0)

  // ---- Where a ball is ----

  predicate AtGoalHeight(ball: Point) {
    0.5 - 0.5 * GOAL_HEIGHT < ball.y < 0.5 + 0.5 * GOAL_HEIGHT
  }

  /** isInGoal: 0 for neither goal, 1 for the left, 2 for the right. */
  function GoalOf(ball: Point): (r: int)
    ensures 0 <= r <= 2
  {
    if AtGoalHeight(ball) then
      if ball.x < 0.0 + GOAL_WIDTH then 1 else if ball.x > 1.0 - GOAL_WIDTH then 2 else 0
    else 0
  }

  /** The goals are the outer tenths of the field, within 0.19 of its middle. */
  predicate InLeftGoal(ball: Point) {
    ball.x < 0.1 && 0.31 < ball.y < 0.69
  }

  predicate InRightGoal(ball: Point) {
    ball.x > 0.9 && 0.31 < ball.y < 0.69
  }

  lemma GoalOfMeans(ball: Point)
    ensures GoalOf(ball) == 1 <==> InLeftGoal(ball)
    ensures GoalOf(ball) == 2 <==> InRightGoal(ball)
  {
  }

  function Mirrored(ball: Point): Point {
    Point(1.0 - ball.x, ball.y)
  }

  /** The mirrored field has the goals exchanged, and the bars too except at their edges. */
  lemma MirroredField(ball: Point)
    ensures GoalOf(Mirrored(ball)) == match GoalOf(ball) case 1 => 2 case 2 => 1 case _ => 0
    ensures BarOf(ball) > 0 && 8.0 * ball.x != (BarOf(ball) - 1) as real ==> BarOf(Mirrored(ball)) == 9 - BarOf(ball)
  {
  }

  /** getPlayerBar */
  function BarOf(ball: Point): (r: int)
    ensures 0 <= r <= 8
    ensures r == 0 <==> ball.x < 0.0 || ball.x >= 1.0
    ensures r > 0 ==> (r - 1) as real <= 8.0 * ball.x < r as real
  {
    if ball.x < 0.0 || ball.x >= 1.0 then 0 else Trunc(1.0 + 8.0 * ball.x)
  }

  const BAR_TEAMS := [0, 1, 1, 2, 1, 2, 1, 2, 2]

  /** Team 1 has the keeper, defender, middle and attacker at bars 1, 2, 4 and 6, team 2 those
      at the mirrored bars, and bar 0 nobody. */
  lemma BarTeamsMean(bar: int)
    requires 0 <= bar <= 8
    ensures BAR_TEAMS[bar] == 1 <==> bar == 1 || bar == 2 || bar == 4 || bar == 6
    ensures BAR_TEAMS[bar] == 2 <==> bar == 8 || bar == 7 || bar == 5 || bar == 3
    ensures bar == 0 ==> BAR_TEAMS[bar] == 0
    ensures bar > 0 ==> BAR_TEAMS[9 - bar] == 3 - BAR_TEAMS[bar]
  {
  }

  // ---- Who scored ----

  predicate AreBars(bars: seq<int>) {
    forall i :: 0 <= i < |bars| ==> 0 <= bars[i] <= 8
  }

  /** The first n bars without those of one team. */
  function WithoutTeam(bars: seq<int>, n: nat, team: int): (r: seq<int>)
    requires n <= |bars| && AreBars(bars)
    ensures forall i :: 0 <= i < |r| ==> 0 <= r[i] <= 8 && BAR_TEAMS[r[i]] != team
  {
    if n == 0 then []
    else if BAR_TEAMS[bars[n - 1]] == team then WithoutTeam(bars, n - 1, team)
    else WithoutTeam(bars, n - 1, team) + [bars[n - 1]]
  }

  /** Length of the run of equal entries at the end. */
  function TrailingRun(s: seq<int>): (n: nat)
    ensures n <= |s|
  {
    if |s| <= 1 then |s|
    else if s[|s| - 2] == s[|s| - 1] then TrailingRun(s[..|s| - 1]) + 1
    else 1
  }

  /** Six equal entries in a row, the last of them at j. */
  predicate RunAt(s: seq<int>, j: int) {
    0 <= j < |s| && TrailingRun(s[..j + 1]) >= BAR_THRESHOLD
  }

  lemma {:induction false} TrailingRunMeans(s: seq<int>)
    ensures s != [] ==> TrailingRun(s) > 0
    ensures forall i :: |s| - TrailingRun(s) <= i < |s| ==> s[i] == s[|s| - 1]
    ensures TrailingRun(s) < |s| ==> s[|s| - TrailingRun(s) - 1] != s[|s| - 1]
  {
    if |s| > 1 {
      TrailingRunMeans(s[..|s| - 1]);
    }
  }

  lemma RunAtMeans(s: seq<int>, j: int)
    ensures RunAt(s, j) <==>
            BAR_THRESHOLD - 1 <= j < |s| && forall i :: j - BAR_THRESHOLD < i <= j ==> s[i] == s[j]
  {
    if 0 <= j < |s| {
      var t := s[..j + 1];
      var n := TrailingRun(t);
      TrailingRunMeans(t);
      assert forall i :: 0 <= i <= j ==> t[i] == s[i];
      if n < BAR_THRESHOLD && n < |t| {
        assert s[j - n] != s[j];
      }
    }
  }

  /** Where the first such run ends, |s| if there is none. */
  function FirstRun(s: seq<int>, from: nat): (j: nat)
    requires from <= |s| && forall i :: 0 <= i < from ==> !RunAt(s, i)
    ensures j <= |s| && (forall i :: 0 <= i < j ==> !RunAt(s, i)) && (j < |s| ==> RunAt(s, j))
    decreases |s| - from
  {
    if from == |s| || RunAt(s, from) then from else FirstRun(s, from + 1)
  }

  /** The bar of the most recent run among the other team's sightings; bars come most recent
      first. */
  function WhoScored(bars: seq<int>, team: int): (r: int)
    requires AreBars(bars)
    ensures 0 <= r <= 8 && (r > 0 ==> BAR_TEAMS[r] != team)
  {
    var others := WithoutTeam(bars, |bars|, team);
    var j := FirstRun(others, 0);
    if j < |others| then others[j] else 0
  }

  lemma FirstRunIs(s: seq<int>, from: nat, j: nat)
    requires from <= j <= |s| && forall i :: 0 <= i < j ==> !RunAt(s, i)
    requires j == |s| || RunAt(s, j)
    ensures FirstRun(s, from) == j
  {
  }

  /** Appending one entry: where runs can now end. */
  lemma RunAtSnoc(s: seq<int>, p: int)
    requires forall j :: 0 <= j < |s| ==> !RunAt(s, j)
    ensures forall j :: 0 <= j < |s| ==> !RunAt(s + [p], j)
    ensures RunAt(s + [p], |s|) <==> TrailingRun(s + [p]) >= BAR_THRESHOLD
    ensures TrailingRun(s + [p]) == if s != [] && s[|s| - 1] == p then TrailingRun(s) + 1 else 1
  {
    var r := s + [p];
    forall j | 0 <= j < |s|
      ensures !RunAt(r, j)
    {
      RunAtPrefix(s, [p], j);
    }
    assert r[..|s|] == s && r[..|s| + 1] == r;
  }

  /** Runs of a prefix are runs of the whole. */
  lemma RunAtPrefix(s: seq<int>, t: seq<int>, j: int)
    requires 0 <= j < |s|
    ensures RunAt(s, j) <==> RunAt(s + t, j)
  {
    assert (s + t)[..j + 1] == s[..j + 1];
  }

  lemma {:induction false} WithoutTeamPrefix(bars: seq<int>, i: nat, n: nat, team: int)
    requires i <= n <= |bars| && AreBars(bars)
    ensures WithoutTeam(bars, i, team) <= WithoutTeam(bars, n, team)
    decreases n
  {
    if i < n {
      WithoutTeamPrefix(bars, i, n - 1, team);
    }
  }

  /** More entries behind a run do not matter. */
  lemma FirstRunPrefix(seen: seq<int>, rest: seq<int>)
    requires FirstRun(seen, 0) < |seen|
    ensures FirstRun(seen + rest, 0) == FirstRun(seen, 0)
  {
    var j := FirstRun(seen, 0);
    forall k | 0 <= k <= j
      ensures RunAt(seen, k) <==> RunAt(seen + rest, k)
    {
      RunAtPrefix(seen, rest, k);
    }
    FirstRunIs(seen + rest, 0, j);
  }

  /** A run among the first bars decides. */
  lemma RunInPrefix(bars: seq<int>, n: nat, team: int)
    requires n <= |bars| && AreBars(bars)
    requires var seen := WithoutTeam(bars, n, team); FirstRun(seen, 0) < |seen|
    ensures var seen := WithoutTeam(bars, n, team); WhoScored(bars, team) == seen[FirstRun(seen, 0)]
  {
    WithoutTeamPrefix(bars, n, |bars|, team);
    var seen, all := WithoutTeam(bars, n, team), WithoutTeam(bars, |bars|, team);
    var rest := all[|seen|..];
    assert all == seen + rest;
    FirstRunPrefix(seen, rest);
  }

  /** Once the walk has met its sixth equal entry the rest of the history is irrelevant. */
  lemma WhoScoredEarly(bars: seq<int>, n: nat, team: int, j: int)
    requires n <= |bars| && AreBars(bars)
    requires var seen := WithoutTeam(bars, n, team);
             j == |seen| - 1 && RunAt(seen, j) && forall k :: 0 <= k < j ==> !RunAt(seen, k)
    ensures WhoScored(bars, team) == WithoutTeam(bars, n, team)[j]
  {
    FirstRunIs(WithoutTeam(bars, n, team), 0, j);
    RunInPrefix(bars, n, team);
  }

  /** Where the walk stands after the first i bars without having met a full run. */
  ghost predicate Walked(bars: seq<int>, i: nat, team: int, player: int, hits: int)
    requires i <= |bars| && AreBars(bars)
  {
    Walks(WithoutTeam(bars, i, team), player, hits)
  }

  ghost predicate Walks(seen: seq<int>, player: int, hits: int) {
    && hits == TrailingRun(seen) < BAR_THRESHOLD
    && player == (if seen == [] then 0 else seen[|seen| - 1])
    && forall j :: 0 <= j < |seen| ==> !RunAt(seen, j)
  }

  lemma WalksOn(seen: seq<int>, player: int, hits: int, p: int)
    requires Walks(seen, player, hits)
    ensures var hits' := if p == player then hits + 1 else 1;
            if hits' == BAR_THRESHOLD
            then RunAt(seen + [p], |seen|) && forall k :: 0 <= k < |seen| ==> !RunAt(seen + [p], k)
            else Walks(seen + [p], p, hits')
  {
    RunAtSnoc(seen, p);
  }

  lemma WalkOn(bars: seq<int>, i: nat, team: int, player: int, hits: int)
    requires i < |bars| && AreBars(bars) && Walked(bars, i, team, player, hits)
    ensures BAR_TEAMS[bars[i]] == team ==> Walked(bars, i + 1, team, player, hits)
    ensures BAR_TEAMS[bars[i]] != team ==>
              var hits' := if bars[i] == player then hits + 1 else 1;
              if hits' == BAR_THRESHOLD then WhoScored(bars, team) == bars[i]
              else Walked(bars, i + 1, team, bars[i], hits')
  {
    var seen := WithoutTeam(bars, i, team);
    if BAR_TEAMS[bars[i]] != team {
      WalksOn(seen, player, hits, bars[i]);
      if bars[i] == player && hits + 1 == BAR_THRESHOLD {
        WhoScoredEarly(bars, i + 1, team, |seen|);
      }
    }
  }

  lemma WalkedThrough(bars: seq<int>, i: nat, team: int, player: int, hits: int)
    requires i == |bars| && AreBars(bars) && Walked(bars, i, team, player, hits)
    ensures WhoScored(bars, team) == 0
  {
    var seen := WithoutTeam(bars, |bars|, team);
    FirstRunIs(seen, 0, |seen|);
  }

  /** Six equal entries in a row, the last of them at j, spelled out. */
  predicate SixEqual(s: seq<int>, j: int) {
    5 <= j < |s| && forall i :: j - 6 < i <= j ==> s[i] == s[j]
  }

  function Count(s: seq<int>, x: int): nat {
    if s == [] then 0 else Count(s[..|s| - 1], x) + if s[|s| - 1] == x then 1 else 0
  }

  lemma CountSnoc(s: seq<int>, b: int, x: int)
    ensures Count(s + [b], x) == Count(s, x) + if b == x then 1 else 0
  {
    assert (s + [b])[..|s|] == s;
  }

  /** One more entry b, dropped or not, when the entries equal to x are all dropped or all kept. */
  lemma CountKept(w: seq<int>, s: seq<int>, b: int, x: int, dropB: bool, dropX: bool)
    requires Count(w, x) == (if dropX then 0 else Count(s, x)) && (b == x ==> dropB == dropX)
    ensures Count(if dropB then w else w + [b], x) == if dropX then 0 else Count(s + [b], x)
  {
    CountSnoc(s, b, x);
    CountSnoc(w, b, x);
  }

  /** Dropping a team drops its bars and nothing else. */
  lemma {:induction false} WithoutTeamKeeps(bars: seq<int>, n: nat, team: int, x: int)
    requires n <= |bars| && AreBars(bars) && 0 <= x <= 8
    ensures Count(WithoutTeam(bars, n, team), x) == if BAR_TEAMS[x] == team then 0 else Count(bars[..n], x)
  {
    if n > 0 {
      var b := bars[n - 1];
      WithoutTeamKeeps(bars, n - 1, team, x);
      CountKept(WithoutTeam(bars, n - 1, team), bars[..n - 1], b, x, BAR_TEAMS[b] == team, BAR_TEAMS[x] == team);
      assert bars[..n] == bars[..n - 1] + [b];
    }
  }

  /** The scorer is the bar of the most recent six equal entries among the sightings at the
      other team's bars, or 0 when there are none. */
  lemma {:induction false} WhoScoredMeans(bars: seq<int>, team: int)
    requires AreBars(bars)
    ensures var others := WithoutTeam(bars, |bars|, team);
            if exists j :: 0 <= j < |others| && SixEqual(others, j)
            then exists j :: 0 <= j < |others| && SixEqual(others, j) && WhoScored(bars, team) == others[j]
                             && forall i :: 0 <= i < j ==> !SixEqual(others, i)
            else WhoScored(bars, team) == 0
  {
    var others := WithoutTeam(bars, |bars|, team);
    forall j | 0 <= j < |others|
      ensures RunAt(others, j) <==> SixEqual(others, j)
    {
      RunAtMeans(others, j);
    }
    var j := FirstRun(others, 0);
    forall i | 0 <= i < j
      ensures !SixEqual(others, i)
    {
      assert !RunAt(others, i);
    }
    if j < |others| {
      assert RunAt(others, j) && SixEqual(others, j);
    }
  }

  // ---- Slots never written ----

  /** How many entries at the end are bar 1. */
  function TrailingOnes(s: seq<int>): nat {
    if s != [] && s[|s| - 1] == 1 then TrailingRun(s) else 0
  }

  /** Bars of 1 behind real ones: they matter exactly when they complete a run of six that the
      real ones leave open. */
  lemma OnesBehind(bars: seq<int>, m: nat, team: int)
    requires m <= |bars| && AreBars(bars) && forall i :: m <= i < |bars| ==> bars[i] == 1
    ensures var met := WithoutTeam(bars, m, team);
            var fills := team != 1 && FirstRun(met, 0) == |met| && |bars| > m
                         && TrailingOnes(met) + |bars| - m >= BAR_THRESHOLD;
            if fills then WhoScored(bars, team) == 1 && WhoScored(bars[..m], team) == 0
            else WhoScored(bars, team) == WhoScored(bars[..m], team)
  {
    var met := WithoutTeam(bars, m, team);
    WithoutTeamOf(bars, m, m, team);
    if FirstRun(met, 0) < |met| {
      RunInPrefix(bars, m, team);
    } else if team == 1 {
      OnesDropped(bars, m, |bars|);
    } else {
      var player := if met == [] then 0 else met[|met| - 1];
      NoRunYet(met);
      WalkOverOnes(bars, m, team, player, TrailingRun(met));
    }
  }

  lemma {:induction false} WithoutTeamOf(bars: seq<int>, n: nat, m: nat, team: int)
    requires n <= m <= |bars| && AreBars(bars)
    ensures WithoutTeam(bars[..m], n, team) == WithoutTeam(bars, n, team)
  {
    if n > 0 {
      WithoutTeamOf(bars, n - 1, m, team);
    }
  }

  lemma NoRunYet(s: seq<int>)
    requires FirstRun(s, 0) == |s|
    ensures TrailingRun(s) < BAR_THRESHOLD
  {
    if s != [] {
      assert !RunAt(s, |s| - 1) && s[..|s| - 1 + 1] == s;
    }
  }

  /** The walk over one bar of 1, and what it comes to if there is a sixth. */
  lemma WalkOverOne(bars: seq<int>, i: nat, team: int, player: int, hits: int)
    requires i < |bars| && AreBars(bars) && bars[i] == 1 && team != 1 && Walked(bars, i, team, player, hits)
    ensures var hits' := if player == 1 then hits + 1 else 1;
            && hits' <= BAR_THRESHOLD
            && if hits' == BAR_THRESHOLD then WhoScored(bars, team) == 1 else Walked(bars, i + 1, team, 1, hits')
  {
    WalkOn(bars, i, team, player, hits);
  }

  /** The walk goes on over the bars of 1 from i. */
  lemma {:induction false} WalkOverOnes(bars: seq<int>, i: nat, team: int, player: int, hits: int)
    requires i <= |bars| && AreBars(bars) && (forall j :: i <= j < |bars| ==> bars[j] == 1)
    requires team != 1 && Walked(bars, i, team, player, hits)
    ensures var ones := if player == 1 then hits else 0;
            WhoScored(bars, team) == if |bars| > i && ones + |bars| - i >= BAR_THRESHOLD then 1 else 0
    decreases |bars| - i
  {
    if i == |bars| {
      WalkedThrough(bars, i, team, player, hits);
    } else {
      WalkOverOne(bars, i, team, player, hits);
      var hits' := if player == 1 then hits + 1 else 1;
      if hits' < BAR_THRESHOLD {
        WalkOverOnes(bars, i + 1, team, 1, hits');
      }
    }
  }

  /** When bar 1 is the excluded team's, bars of 1 are dropped. */
  lemma {:induction false} OnesDropped(bars: seq<int>, m: nat, n: nat)
    requires m <= n <= |bars| && AreBars(bars) && (forall j :: m <= j < n ==> bars[j] == 1)
    ensures WithoutTeam(bars, n, 1) == WithoutTeam(bars, m, 1)
  {
    if m < n {
      OnesDropped(bars, m, n - 1);
    }
  }

  // ---- One frame ----

  // A sighting: the frame and the ball in field coordinates.
  datatype Seen = Seen(frame: int, ball: Point)

  // One call of analysis_update; fps is stableFPS at that time.
  datatype Input = Input(ball: Point, found: bool, fps: real)

  datatype Message = SAVE | FAST | GOAL(team: int, player: int)

  // seen is the whole history of sightings, of which the ring holds the end.
  datatype Tracker = Tracker(frame: nat, seen: seq<Seen>, missing: int, save: int, fast: int, lastGoal: int)

  const START := Tracker(0, [], NEVER_SEEN, 0, 0, 0)

  /** The k-th sighting back; slots of the ring never written hold the origin and frame 0. */
  function Recent(seen: seq<Seen>, k: nat): Seen {
    if k < |seen| then seen[|seen| - 1 - k] else Seen(0, ORIGIN)
  }

  /** The bars of the last n sightings, most recent first. */
  function RecentBars(seen: seq<Seen>, n: nat): (r: seq<int>)
    ensures |r| == n && AreBars(r)
    ensures forall k :: 0 <= k < n ==> r[k] == BarOf(Recent(seen, k).ball)
  {
    seq(n, k requires k >= 0 => BarOf(Recent(seen, k).ball))
  }

  /** A scorer found before the history is full rests on real sightings only, unless the slots
      never written, which count as bar 1, complete a run of six. */
  lemma ScorerIsReal(seen: seq<Seen>, n: nat, team: int)
    ensures var m := if n < |seen| then n else |seen|;
            var met := WithoutTeam(RecentBars(seen, m), m, team);
            var fills := team != 1 && FirstRun(met, 0) == |met| && n > m
                         && TrailingOnes(met) + n - m >= BAR_THRESHOLD;
            if fills then WhoScored(RecentBars(seen, n), team) == 1 && WhoScored(RecentBars(seen, m), team) == 0
            else WhoScored(RecentBars(seen, n), team) == WhoScored(RecentBars(seen, m), team)
  {
    var m := if n < |seen| then n else |seen|;
    var bars := RecentBars(seen, n);
    assert bars[..m] == RecentBars(seen, m);
    WithoutTeamOf(bars, m, m, team);
    forall i | m <= i < n
      ensures bars[i] == 1
    {
      assert Recent(seen, i) == Seen(0, ORIGIN) && BarOf(ORIGIN) == 1;
    }
    OnesBehind(bars, m, team);
  }

  /** One sighting, in the right goal, and bar 1 has scored. */
  lemma UnwrittenSlotsSighting(s: Seen)
    requires s.ball == Point(0.99, 0.5)
    ensures WhoScored(RecentBars([s], 150), 2) == 1 && WhoScored(RecentBars([s], 1), 2) == 0
  {
    ScorerIsReal([s], 150, 2);
    var met := WithoutTeam(RecentBars([s], 1), 1, 2);
    assert |met| <= 1;
    assert FirstRun(met, 0) == |met| by {
      if met != [] {
        RunAtMeans(met, 0);
      }
    }
  }

  /** How far getPlayerWhoScored looks back: 2.5 seconds, at most the ring. */
  function LookBack(fps: real): (r: nat)
    ensures fps >= 0.0 ==> r == 256 || r as real <= 2.5 * fps < (r + 1) as real
    ensures fps >= 0.0 && 2.5 * fps >= 256.0 ==> r == 256
  {
    var n := Trunc(2.5 * fps);
    if n > HISTORY_COUNT then HISTORY_COUNT else if n < 0 then 0 else n
  }

  /** Whether the speed from prev to ball over some frames exceeds limit km/h: both sides of
      the comparison squared, the square root of the distance being monotone. */
  predicate Faster(prev: Point, ball: Point, frames: int, fps: real, limit: real) {
    fps > 0.0 && SquaredDist(prev, ball) * (fps * 3.6) * (fps * 3.6) > limit * limit * frames as real * frames as real
  }

  /** dist squared, in square metres. */
  function SquaredDist(a: Point, b: Point): real {
    var dx, dy := (a.x - b.x) * FIELD_WIDTH, (a.y - b.y) * FIELD_HEIGHT;
    dx * dx + dy * dy
  }

  lemma SquaresCompare(a: real, b: real)
    requires b > 0.0
    ensures a > b <==> a > 0.0 && a * a > b * b
  {
    if a > b {
      assert a * a - b * b == (a - b) * (a + b);
      assert (a - b) * (a + b) > 0.0;
    } else if a > 0.0 {
      assert b * b - a * a == (b - a) * (b + a);
      assert (b - a) * (b + a) >= 0.0;
    }
  }

  /** Faster compares the speed in km/h: d stands for the distance, whose square is known. */
  lemma {:induction false} FasterMeans(prev: Point, ball: Point, frames: int, fps: real, limit: real, d: real)
    requires d >= 0.0 && d * d == SquaredDist(prev, ball) && frames > 0 && limit > 0.0
    ensures Faster(prev, ball, frames, fps, limit) <==> d * fps / frames as real * 3.6 > limit
  {
    var n, f := frames as real, fps * 3.6;
    var speed, v := d * fps / n * 3.6, d * f;
    SpeedTimesFrames(d, fps, n);
    assert speed > limit <==> v > limit * n by {
      MulCompare(speed, limit, n);
    }
    assert limit * n > 0.0;
    SquaresCompare(v, limit * n);
    SquareOfProduct(d, f);
    SquareOfProduct(limit, n);
    assert limit * limit * n * n == limit * limit * (n * n);
    assert SquaredDist(prev, ball) * f * f == d * d * (f * f);
    PositiveFactor(d, fps);
  }

  lemma PositiveFactor(d: real, fps: real)
    requires d >= 0.0
    ensures fps <= 0.0 ==> d * (fps * 3.6) <= 0.0
    ensures fps > 0.0 && d > 0.0 ==> d * (fps * 3.6) > 0.0
    ensures d == 0.0 ==> d * d * (fps * 3.6 * (fps * 3.6)) == 0.0
  {
  }

  lemma SpeedTimesFrames(d: real, fps: real, n: real)
    requires n > 0.0
    ensures d * fps / n * 3.6 * n == d * (fps * 3.6)
  {
    var q := d * fps / n;
    assert q * n == d * fps;
    assert q * 3.6 * n == q * n * 3.6;
    assert d * fps * 3.6 == d * (fps * 3.6);
  }

  lemma MulCompare(a: real, b: real, c: real)
    requires c > 0.0
    ensures a > b <==> a * c > b * c
  {
    assert (a - b) * c == a * c - b * c;
    SameSign(a - b, c);
  }

  lemma SquareOfProduct(a: real, b: real)
    ensures a * b * (a * b) == a * a * (b * b)
  {
    assert a * b * (a * b) == a * (b * (a * b));
  }

  predicate NearGoal(ball: Point) {
    AtGoalHeight(ball) && (ball.x < 0.0 + 3.0 * GOAL_WIDTH || ball.x > 1.0 - 3.0 * GOAL_WIDTH)
  }

  /** The speed is only looked at when the last sighting is recent, and not at the start. */
  predicate SpeedKnown(t: Tracker, x: Input) {
    x.found && t.frame + 1 - Recent(t.seen, 0).frame <= 10 && t.frame + 1 > 100
  }

  predicate TriggersSave(t: Tracker, x: Input) {
    var prev := Recent(t.seen, 0);
    SpeedKnown(t, x) && Faster(prev.ball, x.ball, t.frame + 1 - prev.frame, x.fps, 15.0) && NearGoal(x.ball)
  }

  predicate TriggersFast(t: Tracker, x: Input) {
    var prev := Recent(t.seen, 0);
    SpeedKnown(t, x) && !TriggersSave(t, x) && Faster(prev.ball, x.ball, t.frame + 1 - prev.frame, x.fps, 30.0)
  }

  /** The ball has been missing for the goal delay and was last seen in a goal. */
  predicate DetectsGoal(t: Tracker, x: Input) {
    !x.found && t.missing == GOAL_DELAY && GoalOf(Recent(t.seen, 0).ball) != 0
  }

  predicate ReportsGoal(t: Tracker, x: Input) {
    DetectsGoal(t, x) && t.frame + 1 - t.lastGoal >= Trunc(1.5 * x.fps)
  }

  /** A delayed signal: its new counter, and whether it is sent in this frame. */
  function Ticked(counter: int, limit: int): (int, bool) {
    if counter == 0 then (0, false) else if counter > limit then (0, true) else (counter + 1, false)
  }

  /** The counter at the end of the frame. */
  function Counter(counter: int, limit: int, trigger: bool, reset: bool): int {
    if trigger then 1 else if reset then 0 else Ticked(counter, limit).0
  }

  function Updated(t: Tracker, x: Input): Tracker {
    var limit := Trunc(0.5 * x.fps);
    Tracker(t.frame + 1,
            if x.found then t.seen + [Seen(t.frame + 1, x.ball)] else t.seen,
            if x.found then 0 else t.missing + 1,
            Counter(t.save, limit, TriggersSave(t, x), DetectsGoal(t, x)),
            Counter(t.fast, limit, TriggersFast(t, x), DetectsGoal(t, x)),
            if ReportsGoal(t, x) then t.frame + 1 else t.lastGoal)
  }

  function Messages(t: Tracker, x: Input): seq<Message> {
    var limit := Trunc(0.5 * x.fps);
    var team := GoalOf(Recent(t.seen, 0).ball);
    (if Ticked(t.save, limit).1 then [SAVE] else [])
    + (if Ticked(t.fast, limit).1 then [FAST] else [])
    + (if ReportsGoal(t, x) then [GOAL(team, WhoScored(RecentBars(t.seen, LookBack(x.fps)), team))] else [])
  }

  // ---- The program ----

  function Back(cur: nat, k: nat): int {
    if cur - 1 - k >= 0 then cur - 1 - k else cur - 1 - k + HISTORY_COUNT
  }

  /** The rings hold the last sightings, ending just before cur. */
  ghost predicate RingOf(balls: seq<Point>, frames: seq<int>, cur: int, seen: seq<Seen>) {
    && |balls| == |frames| == HISTORY_COUNT
    && 0 <= cur < HISTORY_COUNT
    && forall k {:trigger Back(cur, k)} :: 0 <= k < HISTORY_COUNT ==>
         balls[Back(cur, k)] == Recent(seen, k).ball && frames[Back(cur, k)] == Recent(seen, k).frame
  }

  lemma RingPush(balls: seq<Point>, frames: seq<int>, cur: nat, seen: seq<Seen>, s: Seen)
    requires RingOf(balls, frames, cur, seen)
    ensures RingOf(balls[cur := s.ball], frames[cur := s.frame],
                   if cur + 1 >= HISTORY_COUNT then 0 else cur + 1, seen + [s])
  {
    var cur' := if cur + 1 >= HISTORY_COUNT then 0 else cur + 1;
    forall k | 0 <= k < HISTORY_COUNT
      ensures balls[cur := s.ball][Back(cur', k)] == Recent(seen + [s], k).ball
      ensures frames[cur := s.frame][Back(cur', k)] == Recent(seen + [s], k).frame
    {
      if k > 0 {
        assert Back(cur', k) == Back(cur, k - 1) != cur;
        assert Recent(seen + [s], k) == Recent(seen, k - 1);
      }
    }
  }

  class Analysis {
    const balls: array<Point>
    const ballFrames: array<int>
    var ballCur: nat
    var ballMissing: int
    var frameNumber: nat
    var sendSAVE: int
    var sendFAST: int
    var lastGOAL: int
    ghost var seen: seq<Seen>

    ghost predicate Valid()
      reads this, balls, ballFrames
    {
      RingOf(balls[..], ballFrames[..], ballCur, seen)
    }

    ghost function View(): Tracker
      reads this
    {
      Tracker(frameNumber, seen, ballMissing, sendSAVE, sendFAST, lastGOAL)
    }

    constructor ()
      ensures Valid() && View() == START && fresh(balls) && fresh(ballFrames)
    {
      balls := new Point[HISTORY_COUNT](_ => ORIGIN);
      ballFrames := new int[HISTORY_COUNT](_ => 0);
      ballCur, ballMissing, frameNumber, sendSAVE, sendFAST, lastGOAL, seen := 0, NEVER_SEEN, 0, 0, 0, 0, [];
    }

    /** One step back in the ring, and the bar there. */
    method StepBack(curIdx: int, ghost k: nat, ghost n: nat) returns (idx: int, p: int)
      requires Valid() && k < n <= HISTORY_COUNT && curIdx == if k > 0 then Back(ballCur, k - 1) else ballCur
      ensures idx == Back(ballCur, k) && p == RecentBars(seen, n)[k]
    {
      idx := if curIdx == 0 then HISTORY_COUNT - 1 else curIdx - 1;
      assert idx == Back(ballCur, k);
      assert balls[..][idx] == Recent(seen, k).ball;
      p := BarOf(balls[idx]);
    }

    /** getPlayerWhoScored: walk back through the ring. */
    method GetPlayerWhoScored(team: int, fps: real) returns (scorer: int)
      requires Valid()
      ensures scorer == WhoScored(RecentBars(seen, LookBack(fps)), team)
    {
      var maxI := Trunc(2.5 * fps);
      if maxI > HISTORY_COUNT {
        maxI := HISTORY_COUNT;
      }
      ghost var bars := RecentBars(seen, LookBack(fps));
      var curIdx, player, hits := ballCur, 0, 0;
      var i := 0;
      while i < maxI
        invariant 0 <= i <= |bars| && |bars| == if maxI >= 0 then maxI else 0
        invariant curIdx == if i > 0 then Back(ballCur, i - 1) else ballCur
        invariant Walked(bars, i, team, player, hits) && 0 <= player <= 8
      {
        var p;
        curIdx, p := StepBack(curIdx, i, |bars|);
        WalkOn(bars, i, team, player, hits);
        i := i + 1;
        if BAR_TEAMS[p] == team {
          continue;
        }
        if p == player {
          hits := hits + 1;
          if hits == BAR_THRESHOLD {
            break;
          }
        } else {
          player, hits := p, 1;
        }
      }
      if hits == BAR_THRESHOLD && 0 < player <= 8 {
        return player;
      }
      if hits != BAR_THRESHOLD {
        assert i == |bars|;
        WalkedThrough(bars, i, team, player, hits);
      }
      return 0;
    }

    /** The first lines of analysis_update: the delayed signals. */
    method SendDelayed(fps: real) returns (msgs: seq<Message>)
      modifies this`sendSAVE, this`sendFAST
      ensures var limit := Trunc(0.5 * fps);
              && sendSAVE == Ticked(old(sendSAVE), limit).0 && sendFAST == Ticked(old(sendFAST), limit).0
              && msgs == (if Ticked(old(sendSAVE), limit).1 then [SAVE] else [])
                         + (if Ticked(old(sendFAST), limit).1 then [FAST] else [])
    {
      msgs := [];
      if sendSAVE != 0 {
        sendSAVE := sendSAVE + 1;
        if sendSAVE - 1 > Trunc(0.5 * fps) {
          msgs := msgs + [SAVE];
          sendSAVE := 0;
        }
      }
      if sendFAST != 0 {
        sendFAST := sendFAST + 1;
        if sendFAST - 1 > Trunc(0.5 * fps) {
          msgs := msgs + [FAST];
          sendFAST := 0;
        }
      }
    }

    /** The ball was found: note it, and check for a fast shot. */
    method BallFound(x: Input, prevIdx: int, ghost t: Tracker)
      requires Valid() && x.found && prevIdx == Back(ballCur, 0)
      requires t.seen == seen && t.frame + 1 == frameNumber
      modifies this`ballMissing, this`ballCur, this`sendSAVE, this`sendFAST, this`seen, balls, ballFrames
      ensures Valid()
      ensures ballMissing == 0 && seen == old(seen) + [Seen(frameNumber, x.ball)]
      ensures sendSAVE == if TriggersSave(t, x) then 1 else old(sendSAVE)
      ensures sendFAST == if TriggersFast(t, x) then 1 else old(sendFAST)
    {
      RingPush(balls[..], ballFrames[..], ballCur, seen, Seen(frameNumber, x.ball));
      assert balls[..][Back(ballCur, 0)] == Recent(seen, 0).ball;
      assert ballFrames[..][Back(ballCur, 0)] == Recent(seen, 0).frame;
      var prevBall, frameDiffs := balls[prevIdx], frameNumber - ballFrames[prevIdx];
      ghost var was, frames := balls[..], ballFrames[..];
      ballMissing := 0;
      balls[ballCur] := x.ball;
      ballFrames[ballCur] := frameNumber;
      assert balls[..] == was[ballCur := x.ball] && ballFrames[..] == frames[ballCur := frameNumber];
      ballCur := ballCur + 1;
      if frameDiffs <= 10 && frameNumber > 100 {
        if Faster(prevBall, x.ball, frameDiffs, x.fps, 15.0) && NearGoal(x.ball) {
          sendSAVE := 1;
        } else if Faster(prevBall, x.ball, frameDiffs, x.fps, 30.0) {
          sendFAST := 1;
        }
      }
      if ballCur >= HISTORY_COUNT {
        ballCur := 0;
      }
      seen := seen + [Seen(frameNumber, x.ball)];
    }

    /** The ball was not found: after the delay, see whether it went into a goal. */
    method BallMissing(x: Input, prevIdx: int, ghost t: Tracker) returns (msgs: seq<Message>)
      requires Valid() && !x.found && prevIdx == Back(ballCur, 0)
      requires t.seen == seen && t.frame + 1 == frameNumber && t.missing == ballMissing && t.lastGoal == lastGOAL
      modifies this`ballMissing, this`sendSAVE, this`sendFAST, this`lastGOAL
      ensures Valid() && ballMissing == old(ballMissing) + 1
      ensures sendSAVE == if DetectsGoal(t, x) then 0 else old(sendSAVE)
      ensures sendFAST == if DetectsGoal(t, x) then 0 else old(sendFAST)
      ensures lastGOAL == if ReportsGoal(t, x) then frameNumber else old(lastGOAL)
      ensures msgs == if ReportsGoal(t, x)
                      then var team := GoalOf(Recent(seen, 0).ball);
                           [GOAL(team, WhoScored(RecentBars(seen, LookBack(x.fps)), team))]
                      else []
    {
      msgs := [];
      assert balls[..][Back(ballCur, 0)] == Recent(seen, 0).ball;
      ballMissing := ballMissing + 1;
      if ballMissing - 1 == GOAL_DELAY {
        var goal := GoalOf(balls[prevIdx]);
        if goal != 0 {
          sendSAVE := 0;
          sendFAST := 0;
          if frameNumber - lastGOAL >= Trunc(1.5 * x.fps) {
            lastGOAL := frameNumber;
            var player := GetPlayerWhoScored(goal, x.fps);
            msgs := [GOAL(goal, player)];
          }
        }
      }
    }

    /** analysis_update */
    method Update(x: Input) returns (msgs: seq<Message>)
      requires Valid()
      modifies this, balls, ballFrames
      ensures Valid() && View() == Updated(old(View()), x)
      ensures msgs == Messages(old(View()), x)
    {
      ghost var t := View();
      frameNumber := frameNumber + 1;
      msgs := SendDelayed(x.fps);
      var prevIdx := if ballCur == 0 then HISTORY_COUNT - 1 else ballCur - 1;
      if x.found {
        BallFound(x, prevIdx, t);
      } else {
        var goals := BallMissing(x, prevIdx, t);
        msgs := msgs + goals;
      }
    }
  }
}

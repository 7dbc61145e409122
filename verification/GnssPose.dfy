/**
 * The part of the GNSS node that pairs positions with headings. Positions wait for a heading of the
 * same time; headings arrive in any order with them; what waits too long is published invalid.
 */
module GnssPose {
  import opened Bytes
  import opened GnssHistory

  predicate HasFix(gga: Gga) { gga.fixQuality > 0 && gga.finite }

  predicate Within(gga: Gga, hpr: Hpr, tolerance: real) {
    var d := UtcDifference(gga.utc, hpr.utc);
    d.Some? && d.value <= tolerance
  }

  /** The two times of day are readable, and no further apart than the tolerance, around midnight if need be. */
  predicate Near(gga: Gga, hpr: Hpr, tolerance: real) {
    match (gga.utc, hpr.utc)
    case (Fields(h, m, s), Fields(h', m', s')) =>
      var ahead := (h - h') as real * 3600.0 + (m - m') as real * 60.0 + (s - s');
      && 0 <= h < 24 && 0 <= m < 60 && 0.0 <= s < 60.0 && 0 <= h' < 24 && 0 <= m' < 60 && 0.0 <= s' < 60.0
      && (-tolerance <= ahead <= tolerance || ahead >= 86400.0 - tolerance || ahead <= tolerance - 86400.0)
    case _ => false
  }

  lemma WithinIsNear(gga: Gga, hpr: Hpr, tolerance: real)
    ensures Within(gga, hpr, tolerance) <==> Near(gga, hpr, tolerance)
  {
    hide UtcSeconds;
    UtcSum(gga.utc);
    UtcSum(hpr.utc);
  }

  /** The position has a fix and coordinates that can be projected. */
  predicate Located(gga: Gga) { gga.fixQuality > 0 && gga.finite && gga.projectable }

  /**
   * A pose is marked valid exactly when it pairs a position with a fix and a valid heading. A heading
   * is paired with a position of its time only.
   */
  predicate Sound(pose: Pose, tolerance: real) {
    && (pose.valid <==> pose.item.Some? && pose.hpr.Some? && Located(pose.item.value.gga) && pose.hpr.value.dataValid)
    && (pose.item.Some? && pose.hpr.Some? ==> Near(pose.item.value.gga, pose.hpr.value, tolerance))
  }

  ghost predicate AllSound(poses: seq<Pose>, tolerance: real) {
    forall i :: 0 <= i < |poses| ==> Sound(poses[i], tolerance)
  }

  /** The samples carry the judgement of their own fix, and have arrived by now. */
  ghost predicate AllHonest(pending: seq<Item>, clock: real) {
    forall k :: 0 <= k < |pending| ==> pending[k].hasFix == HasFix(pending[k].gga) && pending[k].receivedAt <= clock
  }

  lemma HonestAt(pending: seq<Item>, clock: real, k: nat)
    requires AllHonest(pending, clock) && k < |pending|
    ensures pending[k].hasFix == HasFix(pending[k].gga)
  {
  }

  lemma HonestRest(pending: seq<Item>, clock: real, m: nat)
    requires AllHonest(pending, clock) && m <= |pending|
    ensures AllHonest(pending[m..], clock)
  {
  }

  lemma HonestLater(pending: seq<Item>, clock: real, now: real)
    requires AllHonest(pending, clock) && clock <= now
    ensures AllHonest(pending, now)
  {
  }

  lemma HonestMore(pending: seq<Item>, item: Item)
    requires AllHonest(pending, item.receivedAt) && item.hasFix == HasFix(item.gga)
    ensures AllHonest(pending + [item], item.receivedAt)
    ensures forall k :: 0 <= k < |pending| ==> pending[k].receivedAt <= item.receivedAt
  {
  }

  /** Between two stale attitudes there is a fresh one. */
  ghost predicate StaleOnce(attitudes: seq<bool>) {
    forall i :: 0 < i < |attitudes| ==> attitudes[i - 1] || attitudes[i]
  }

  function PoseOf(item: Item, hpr: Option<Hpr>): Pose {
    Pose(Some(item), hpr, item.hasFix && item.gga.projectable && hpr.Some? && hpr.value.dataValid)
  }

  /** The poses of the first `n` samples that match a heading, in order. */
  function MatchPoses(pending: seq<Item>, hpr: Hpr, tolerance: real, n: nat): seq<Pose>
    requires n <= |pending|
  {
    if n == 0 then []
    else
      MatchPoses(pending, hpr, tolerance, n - 1) +
      if Within(pending[n - 1].gga, hpr, tolerance) then [PoseOf(pending[n - 1], Some(hpr))] else []
  }

  /** How many of the first `n` samples are settled: those up to the last match. */
  function LastMatch(pending: seq<Item>, hpr: Hpr, tolerance: real, n: nat): (m: nat)
    requires n <= |pending|
    ensures m <= n
    ensures forall k :: m <= k < n ==> !Within(pending[k].gga, hpr, tolerance)
    ensures m > 0 ==> Within(pending[m - 1].gga, hpr, tolerance)
  {
    if n == 0 then 0
    else if Within(pending[n - 1].gga, hpr, tolerance) then n
    else LastMatch(pending, hpr, tolerance, n - 1)
  }

  /** The poses of the first `n` samples without a heading. */
  function ExpiredPoses(pending: seq<Item>, n: nat): seq<Pose>
    requires n <= |pending|
  {
    if n == 0 then [] else ExpiredPoses(pending, n - 1) + [PoseOf(pending[n - 1], None)]
  }

  lemma ExpiredNone(pending: seq<Item>)
    ensures ExpiredPoses(pending, 0) == []
  {
  }

  lemma ExpiredMore(pending: seq<Item>, n: nat)
    requires n < |pending|
    ensures ExpiredPoses(pending, n + 1) == ExpiredPoses(pending, n) + [PoseOf(pending[n], None)]
  {
  }

  lemma SealedSelf(fates: seq<Fate>, mayClear: bool)
    ensures Sealed(fates, fates, mayClear)
  {
  }

  lemma SealedMore(fates: seq<Fate>)
    ensures Sealed(fates, fates + [Waiting], false)
  {
  }

  lemma SealedTwice(a: seq<Fate>, b: seq<Fate>, c: seq<Fate>, first: bool, second: bool)
    requires Sealed(a, b, first) && Sealed(b, c, second)
    ensures Sealed(a, c, first || second)
  {
  }

  /** The samples are in the order in which they were received. */
  ghost predicate Sorted(pending: seq<Item>) {
    forall i, j :: 0 <= i < j < |pending| ==> pending[i].receivedAt <= pending[j].receivedAt
  }

  lemma InTime(pending: seq<Item>, poses: seq<Pose>, fates: seq<Fate>)
    requires Consistent(pending, poses, fates)
    ensures Sorted(pending)
  {
  }

  lemma SortedAt(pending: seq<Item>, i: nat, j: nat)
    requires Sorted(pending) && i <= j < |pending|
    ensures pending[i].receivedAt <= pending[j].receivedAt
  {
  }

  /** All samples of the part have waited for the tolerance, or none has. */
  ghost predicate AllDue(part: seq<Item>, now: real, tolerance: real) {
    forall k :: 0 <= k < |part| ==> now - part[k].receivedAt >= tolerance
  }

  ghost predicate NoneDue(part: seq<Item>, now: real, tolerance: real) {
    forall k :: 0 <= k < |part| ==> now - part[k].receivedAt < tolerance
  }

  lemma DueNone(now: real, tolerance: real)
    ensures AllDue([], now, tolerance)
  {
  }

  lemma OneMoreDue(pending: seq<Item>, e: nat, now: real, tolerance: real)
    requires e < |pending| && AllDue(pending[..e], now, tolerance) && now - pending[e].receivedAt >= tolerance
    ensures AllDue(pending[..e + 1], now, tolerance)
  {
    assert pending[..e + 1] == pending[..e] + [pending[e]];
  }

  /** The flags say what the last pose and the last attitude were. */
  ghost predicate Flags(poseValid: bool, poses: seq<Pose>, stale: bool, attitudes: seq<bool>) {
    && poseValid == (poses != [] && poses[|poses| - 1].valid)
    && stale == (attitudes != [] && !attitudes[|attitudes| - 1])
    && StaleOnce(attitudes)
  }

  lemma FlagsPose(poseValid: bool, poses: seq<Pose>, stale: bool, attitudes: seq<bool>, pose: Pose)
    requires Flags(poseValid, poses, stale, attitudes)
    ensures Flags(pose.valid, poses + [pose], stale, attitudes)
  {
  }

  lemma SoundMore(poses: seq<Pose>, tolerance: real, pose: Pose)
    requires AllSound(poses, tolerance) && Sound(pose, tolerance)
    ensures AllSound(poses + [pose], tolerance)
  {
  }

  /** What the other threads send; connection states, sentences and log lines do not matter here. */
  datatype Event = GgaEvent(gga: Gga) | HprEvent(hpr: Hpr) | LocalPoseInvalid | Other

  /** What the serial thread writes: the latest heading with its time, and whether it has the port. */
  datatype Shared = Shared(latestHpr: Option<(Hpr, real)>, serialReady: bool)

  /* ----- what the events make of the samples, poses and attitudes ----- */

  datatype Settings = Settings(enabled: bool, tolerance: real, attitudeTimeout: real)

  /** The samples that wait, what was published, and how many samples have arrived. */
  datatype Board = Board(pending: seq<Item>, poses: seq<Pose>, attitudes: seq<bool>, arrivals: nat)

  predicate LastValid(poses: seq<Pose>) { poses != [] && poses[|poses| - 1].valid }

  predicate LastStale(attitudes: seq<bool>) { attitudes != [] && !attitudes[|attitudes| - 1] }

  function Withdrawn(b: Board): Board {
    if LastValid(b.poses) then b.(poses := b.poses + [Pose(None, None, false)]) else b
  }

  function Matched(b: Board, hpr: Hpr, tolerance: real): Board {
    var n := |b.pending|;
    b.(poses := b.poses + MatchPoses(b.pending, hpr, tolerance, n),
       pending := b.pending[LastMatch(b.pending, hpr, tolerance, n)..])
  }

  function Arrived(b: Board, gga: Gga, now: real): Board {
    b.(pending := b.pending + [Item(b.arrivals, gga, HasFix(gga), now)], arrivals := b.arrivals + 1)
  }

  function AfterEvent(b: Board, c: Settings, shared: Shared, event: Event, now: real, later: real): Board {
    match event
    case GgaEvent(gga) =>
      if !c.enabled then b
      else if shared.latestHpr.Some? && shared.serialReady && later - shared.latestHpr.value.1 <= c.attitudeTimeout then
        Matched(Arrived(b, gga, now), shared.latestHpr.value.0, c.tolerance)
      else Arrived(b, gga, now)
    case HprEvent(hpr) => Matched(b.(attitudes := b.attitudes + [true]), hpr, c.tolerance)
    case LocalPoseInvalid => Withdrawn(b.(pending := []))
    case Other => b
  }

  /** The first `n` events, one after the other. */
  function AfterEvents(b: Board, c: Settings, shared: seq<Shared>, events: seq<Event>, readings: seq<real>,
                       n: nat): Board
    requires n <= |events| && n <= |shared| && 2 * n <= |readings|
  {
    if n == 0 then b
    else AfterEvent(AfterEvents(b, c, shared, events, readings, n - 1), c, shared[n - 1], events[n - 1],
                    readings[2 * n - 2], readings[2 * n - 1])
  }

  /** How many samples from the first on have waited for the tolerance. */
  function DueCount(pending: seq<Item>, now: real, tolerance: real): (n: nat)
    ensures n <= |pending|
  {
    if pending == [] || now - pending[0].receivedAt < tolerance then 0 else 1 + DueCount(pending[1..], now, tolerance)
  }

  function AfterDue(b: Board, c: Settings, now: real): Board {
    var n := DueCount(b.pending, now, c.tolerance);
    b.(poses := b.poses + ExpiredPoses(b.pending, n), pending := b.pending[n..])
  }

  function AfterTimeout(b: Board, c: Settings, shared: Shared, now: real): Board {
    if shared.latestHpr.Some? && !LastStale(b.attitudes) && now - shared.latestHpr.value.1 >= c.attitudeTimeout
    then Withdrawn(b.(attitudes := b.attitudes + [false]))
    else b
  }

  /** One round of the timer: the events, then what is due. */
  function AfterDrain(b: Board, c: Settings, shared: seq<Shared>, events: seq<Event>, readings: seq<real>): Board
    requires |shared| == |events| + 1 && |readings| == 2 * |events| + 2
  {
    var n := |events|;
    AfterTimeout(AfterDue(AfterEvents(b, c, shared, events, readings, n), c, readings[2 * n]),
                 c, shared[n], readings[2 * n + 1])
  }

  /** The first `e` samples are due and the others are not, so `e` is how many are. */
  lemma {:induction false} DueCountIs(pending: seq<Item>, e: nat, now: real, tolerance: real)
    requires e <= |pending| && AllDue(pending[..e], now, tolerance) && NoneDue(pending[e..], now, tolerance)
    ensures DueCount(pending, now, tolerance) == e
    decreases e
  {
    if e > 0 {
      assert pending[..e][0] == pending[0];
      assert pending[1..][..e - 1] == pending[..e][1..] && pending[1..][e - 1..] == pending[e..];
      DueCountIs(pending[1..], e - 1, now, tolerance);
    } else if pending != [] {
      assert pending[0..][0] == pending[0];
    }
  }

  /** How many of the first `n` events are positions, and how many are headings. */
  function Positions(events: seq<Event>, n: nat): nat
    requires n <= |events|
  {
    if n == 0 then 0 else Positions(events, n - 1) + if events[n - 1].GgaEvent? then 1 else 0
  }

  function Headings(events: seq<Event>, n: nat): nat
    requires n <= |events|
  {
    if n == 0 then 0 else Headings(events, n - 1) + if events[n - 1].HprEvent? then 1 else 0
  }

  function Fresh(n: nat): seq<bool> { if n == 0 then [] else Fresh(n - 1) + [true] }

  lemma EventBooked(b: Board, c: Settings, shared: Shared, event: Event, now: real, later: real)
    ensures var after := AfterEvent(b, c, shared, event, now, later);
            && after.arrivals == b.arrivals + (if c.enabled && event.GgaEvent? then 1 else 0)
            && after.attitudes == (if event.HprEvent? then b.attitudes + [true] else b.attitudes)
            && b.poses <= after.poses
  {
    hide MatchPoses, LastMatch;
  }

  /** Every position is booked as an arrival, and every heading is published as a fresh attitude. */
  lemma {:induction false} EventsBooked(b: Board, c: Settings, shared: seq<Shared>, events: seq<Event>,
                                        readings: seq<real>, n: nat)
    requires n <= |events| && n <= |shared| && 2 * n <= |readings|
    ensures var after := AfterEvents(b, c, shared, events, readings, n);
            && after.arrivals == b.arrivals + (if c.enabled then Positions(events, n) else 0)
            && after.attitudes == b.attitudes + Fresh(Headings(events, n)) && b.poses <= after.poses
    decreases n
  {
    hide AfterEvent;
    if n > 0 {
      EventsBooked(b, c, shared, events, readings, n - 1);
      EventBooked(AfterEvents(b, c, shared, events, readings, n - 1), c, shared[n - 1], events[n - 1],
                  readings[2 * n - 2], readings[2 * n - 1]);
    }
  }

  /* ----- what the board shows after an event ----- */

  /** The pose shows the sample with the heading, and is marked valid exactly when both are. */
  predicate Joins(pose: Pose, item: Item, hpr: Hpr) {
    pose == Pose(Some(item), Some(hpr), Located(item.gga) && hpr.dataValid)
  }

  /** The pose is that of one of the first `n` samples, which is near the heading. */
  ghost predicate PairOf(pose: Pose, waiting: seq<Item>, n: nat, hpr: Hpr, tolerance: real) {
    exists k :: 0 <= k < n && k < |waiting| && Near(waiting[k].gga, hpr, tolerance) && Joins(pose, waiting[k], hpr)
  }

  /** The sample is among the poses from `first` on. */
  ghost predicate HasPair(item: Item, poses: seq<Pose>, first: nat, hpr: Hpr) {
    exists i :: first <= i < |poses| && Joins(poses[i], item, hpr)
  }

  /** The new poses are those of the samples near the heading: of no others, and of all of these. */
  ghost predicate Paired(waiting: seq<Item>, n: nat, hpr: Hpr, tolerance: real, before: seq<Pose>, after: seq<Pose>) {
    && before <= after
    && (forall i :: |before| <= i < |after| ==> PairOf(after[i], waiting, n, hpr, tolerance))
    && (forall k :: 0 <= k < n && k < |waiting| && Near(waiting[k].gga, hpr, tolerance) ==>
          HasPair(waiting[k], after, |before|, hpr))
  }

  /** What waited in front of the last match waits no longer, and what came behind it still does. */
  ghost predicate Kept(waiting: seq<Item>, hpr: Hpr, tolerance: real, pending: seq<Item>) {
    exists m :: 0 <= m <= |waiting| && pending == waiting[m..]
                && (m > 0 ==> Near(waiting[m - 1].gga, hpr, tolerance))
                && forall k :: m <= k < |waiting| ==> !Near(waiting[k].gga, hpr, tolerance)
  }

  lemma PairedNone(waiting: seq<Item>, hpr: Hpr, tolerance: real, poses: seq<Pose>)
    ensures Paired(waiting, 0, hpr, tolerance, poses, poses)
  {
  }

  lemma HasPairMore(item: Item, poses: seq<Pose>, pose: Pose, first: nat, hpr: Hpr)
    requires first <= |poses| && (HasPair(item, poses, first, hpr) || Joins(pose, item, hpr))
    ensures HasPair(item, poses + [pose], first, hpr)
  {
    hide Joins;
    assert (poses + [pose])[|poses|] == pose;
    if HasPair(item, poses, first, hpr) {
      var i :| first <= i < |poses| && Joins(poses[i], item, hpr);
      assert (poses + [pose])[i] == poses[i];
    }
  }

  lemma PairOfMore(pose: Pose, waiting: seq<Item>, n: nat, hpr: Hpr, tolerance: real)
    requires PairOf(pose, waiting, n, hpr, tolerance)
          || (n < |waiting| && Near(waiting[n].gga, hpr, tolerance) && Joins(pose, waiting[n], hpr))
    ensures PairOf(pose, waiting, n + 1, hpr, tolerance)
  {
    hide Near, Joins;
  }

  lemma PairedMore(waiting: seq<Item>, n: nat, hpr: Hpr, tolerance: real, before: seq<Pose>, after: seq<Pose>,
                   pose: Pose)
    requires n < |waiting| && Paired(waiting, n, hpr, tolerance, before, after)
    requires Near(waiting[n].gga, hpr, tolerance) && Joins(pose, waiting[n], hpr)
    ensures Paired(waiting, n + 1, hpr, tolerance, before, after + [pose])
  {
    hide Near, Joins, PairOf, HasPair;
    var poses := after + [pose];
    forall i | |before| <= i < |poses| ensures PairOf(poses[i], waiting, n + 1, hpr, tolerance) {
      PairOfMore(poses[i], waiting, n, hpr, tolerance);
    }
    forall k | 0 <= k < n + 1 && Near(waiting[k].gga, hpr, tolerance)
      ensures HasPair(waiting[k], poses, |before|, hpr)
    {
      HasPairMore(waiting[k], after, pose, |before|, hpr);
    }
  }

  lemma PairedSame(waiting: seq<Item>, n: nat, hpr: Hpr, tolerance: real, before: seq<Pose>, after: seq<Pose>)
    requires n < |waiting| && Paired(waiting, n, hpr, tolerance, before, after)
    requires !Near(waiting[n].gga, hpr, tolerance)
    ensures Paired(waiting, n + 1, hpr, tolerance, before, after)
  {
    hide Near, Joins, PairOf, HasPair;
    forall i | |before| <= i < |after| ensures PairOf(after[i], waiting, n + 1, hpr, tolerance) {
      PairOfMore(after[i], waiting, n, hpr, tolerance);
    }
  }

  lemma {:induction false} MatchesPaired(waiting: seq<Item>, hpr: Hpr, tolerance: real, n: nat, poses: seq<Pose>,
                                         clock: real)
    requires n <= |waiting| && AllHonest(waiting, clock)
    ensures Paired(waiting, n, hpr, tolerance, poses, poses + MatchPoses(waiting, hpr, tolerance, n))
    decreases n
  {
    hide PairOf, HasPair, Near, Within, AllHonest, Paired;
    PairedNone(waiting, hpr, tolerance, poses);
    assert poses + [] == poses;
    if n > 0 {
      MatchesPaired(waiting, hpr, tolerance, n - 1, poses, clock);
      WithinIsNear(waiting[n - 1].gga, hpr, tolerance);
      var after := poses + MatchPoses(waiting, hpr, tolerance, n - 1);
      if Within(waiting[n - 1].gga, hpr, tolerance) {
        var pose := PoseOf(waiting[n - 1], Some(hpr));
        HonestAt(waiting, clock, n - 1);
        PairedMore(waiting, n - 1, hpr, tolerance, poses, after, pose);
        assert after + [pose] == poses + MatchPoses(waiting, hpr, tolerance, n);
      } else {
        PairedSame(waiting, n - 1, hpr, tolerance, poses, after);
        assert after == poses + MatchPoses(waiting, hpr, tolerance, n);
      }
    }
  }

  lemma LastMatchKeeps(waiting: seq<Item>, hpr: Hpr, tolerance: real)
    ensures Kept(waiting, hpr, tolerance, waiting[LastMatch(waiting, hpr, tolerance, |waiting|)..])
  {
    hide Near, Within;
    var m := LastMatch(waiting, hpr, tolerance, |waiting|);
    if m > 0 {
      WithinIsNear(waiting[m - 1].gga, hpr, tolerance);
    }
    forall k | m <= k < |waiting| ensures !Near(waiting[k].gga, hpr, tolerance) {
      WithinIsNear(waiting[k].gga, hpr, tolerance);
    }
  }

  lemma MatchedIs(b: Board, hpr: Hpr, tolerance: real, clock: real)
    requires AllHonest(b.pending, clock)
    ensures var after := Matched(b, hpr, tolerance);
            && Paired(b.pending, |b.pending|, hpr, tolerance, b.poses, after.poses)
            && Kept(b.pending, hpr, tolerance, after.pending)
            && after.attitudes == b.attitudes && after.arrivals == b.arrivals
  {
    hide Paired, Kept, MatchPoses, LastMatch;
    MatchesPaired(b.pending, hpr, tolerance, |b.pending|, b.poses, clock);
    LastMatchKeeps(b.pending, hpr, tolerance);
  }

  /**
   * A heading is paired with every sample of its time that waits. The poses of positions with a fix are
   * valid when the heading is, and what waited in front of the last one is superseded.
   */
  lemma HeadingPairs(b: Board, c: Settings, shared: Shared, hpr: Hpr, now: real, later: real)
    requires AllHonest(b.pending, now)
    ensures var after := AfterEvent(b, c, shared, HprEvent(hpr), now, later);
            && Paired(b.pending, |b.pending|, hpr, c.tolerance, b.poses, after.poses)
            && Kept(b.pending, hpr, c.tolerance, after.pending)
            && after.attitudes == b.attitudes + [true] && after.arrivals == b.arrivals
  {
    MatchedIs(b.(attitudes := b.attitudes + [true]), hpr, c.tolerance, now);
  }

  /** A position waits last, and is paired as by a heading as long as the latest heading is fresh. */
  lemma PositionPairs(b: Board, c: Settings, shared: Shared, gga: Gga, now: real, later: real)
    requires AllHonest(b.pending, now) && c.enabled
    ensures var after := AfterEvent(b, c, shared, GgaEvent(gga), now, later);
            var waiting := b.pending + [Item(b.arrivals, gga, gga.fixQuality > 0 && gga.finite, now)];
            && after.attitudes == b.attitudes && after.arrivals == b.arrivals + 1
            && if shared.serialReady && shared.latestHpr.Some? && later <= shared.latestHpr.value.1 + c.attitudeTimeout
               then Paired(waiting, |waiting|, shared.latestHpr.value.0, c.tolerance, b.poses, after.poses)
                 && Kept(waiting, shared.latestHpr.value.0, c.tolerance, after.pending)
               else after.poses == b.poses && after.pending == waiting
  {
    hide Paired, Kept;
    var item := Item(b.arrivals, gga, gga.fixQuality > 0 && gga.finite, now);
    HonestMore(b.pending, item);
    if shared.latestHpr.Some? {
      MatchedIs(Arrived(b, gga, now), shared.latestHpr.value.0, c.tolerance, now);
    }
  }

  /** What has waited for the tolerance is published without a heading, and so invalid, in its order. */
  lemma DuePublished(b: Board, c: Settings, now: real)
    ensures var after := AfterDue(b, c, now); var e := |b.pending| - |after.pending|;
            && 0 <= e && after.pending == b.pending[e..] && after.poses == b.poses + after.poses[|b.poses|..]
            && |after.poses| == |b.poses| + e
            && (forall k :: 0 <= k < e ==> after.poses[|b.poses| + k] == Pose(Some(b.pending[k]), None, false))
            && (forall k :: 0 <= k < e ==> now >= b.pending[k].receivedAt + c.tolerance)
            && (after.pending != [] ==> now < after.pending[0].receivedAt + c.tolerance)
  {
    var n := DueCount(b.pending, now, c.tolerance);
    ExpiredAre(b.pending, n);
    DueAre(b.pending, now, c.tolerance);
    assert b.poses + ExpiredPoses(b.pending, n) == AfterDue(b, c, now).poses;
  }

  lemma {:induction false} ExpiredAre(pending: seq<Item>, n: nat)
    requires n <= |pending|
    ensures |ExpiredPoses(pending, n)| == n
    ensures forall k :: 0 <= k < n ==> ExpiredPoses(pending, n)[k] == Pose(Some(pending[k]), None, false)
    decreases n
  {
    if n > 0 {
      ExpiredAre(pending, n - 1);
    }
  }

  lemma {:induction false} DueAre(pending: seq<Item>, now: real, tolerance: real)
    ensures var n := DueCount(pending, now, tolerance);
            && (forall k :: 0 <= k < n ==> now >= pending[k].receivedAt + tolerance)
            && (n < |pending| ==> now < pending[n].receivedAt + tolerance)
    decreases |pending|
  {
    if pending != [] && now - pending[0].receivedAt >= tolerance {
      DueAre(pending[1..], now, tolerance);
      var n := DueCount(pending, now, tolerance);
      forall k | 0 <= k < n ensures now >= pending[k].receivedAt + tolerance {
        assert k > 0 ==> pending[k] == pending[1..][k - 1];
      }
      assert n < |pending| ==> pending[n] == pending[1..][n - 1];
    }
  }

  /** What waits after an event has arrived by then, and carries the judgement of its own fix. */
  lemma EventHonest(b: Board, c: Settings, shared: Shared, event: Event, now: real, later: real)
    requires AllHonest(b.pending, now) && now <= later
    ensures AllHonest(AfterEvent(b, c, shared, event, now, later).pending, later)
  {
    hide MatchPoses, LastMatch, Within;
  }

  predicate Ascending(readings: seq<real>) { forall i :: 0 < i < |readings| ==> readings[i - 1] <= readings[i] }

  lemma {:induction false} EventsHonest(b: Board, c: Settings, shared: seq<Shared>, events: seq<Event>,
                                        readings: seq<real>, n: nat)
    requires n <= |events| && n <= |shared| && 2 * n < |readings| && Ascending(readings)
    requires AllHonest(b.pending, readings[0])
    ensures AllHonest(AfterEvents(b, c, shared, events, readings, n).pending, readings[2 * n])
    decreases n
  {
    hide AllHonest, AfterEvent;
    if n > 0 {
      EventsHonest(b, c, shared, events, readings, n - 1);
      var before := AfterEvents(b, c, shared, events, readings, n - 1);
      assert readings[2 * n - 2] <= readings[2 * n - 1] <= readings[2 * n];
      EventHonest(before, c, shared[n - 1], events[n - 1], readings[2 * n - 2], readings[2 * n - 1]);
      HonestLater(AfterEvents(b, c, shared, events, readings, n).pending, readings[2 * n - 1], readings[2 * n]);
    }
  }

  lemma {:induction false} PosesStay(b: Board, c: Settings, shared: seq<Shared>, events: seq<Event>,
                                     readings: seq<real>, k: nat, n: nat)
    requires k <= n <= |events| && n <= |shared| && 2 * n <= |readings|
    ensures AfterEvents(b, c, shared, events, readings, k).poses <= AfterEvents(b, c, shared, events, readings, n).poses
    decreases n
  {
    hide AfterEvent;
    if k < n {
      PosesStay(b, c, shared, events, readings, k, n - 1);
      EventBooked(AfterEvents(b, c, shared, events, readings, n - 1), c, shared[n - 1], events[n - 1],
                  readings[2 * n - 2], readings[2 * n - 1]);
    }
  }

  /**
   * In every round: when a heading is taken from the queue while a sample of its time waits, the sample
   * is published with it, and the pose is marked valid exactly when the position has a fix and can be
   * projected and the heading is valid.
   */
  lemma HeadingDelivered(b: Board, c: Settings, shared: seq<Shared>, events: seq<Event>, readings: seq<real>,
                         k: nat, n: nat, hpr: Hpr, item: Item)
    requires k < n <= |events| && n <= |shared| && 2 * n < |readings| && Ascending(readings)
    requires AllHonest(b.pending, readings[0]) && events[k] == HprEvent(hpr) && Near(item.gga, hpr, c.tolerance)
    requires item in AfterEvents(b, c, shared, events, readings, k).pending
    ensures Pose(Some(item), Some(hpr), Located(item.gga) && hpr.dataValid)
         in AfterEvents(b, c, shared, events, readings, n).poses
  {
    hide AfterEvent, AllHonest, Near, Located, Kept, Ascending;
    var before := AfterEvents(b, c, shared, events, readings, k);
    EventsHonest(b, c, shared, events, readings, k);
    HeadingPairs(before, c, shared[k], hpr, readings[2 * k], readings[2 * k + 1]);
    PosesStay(b, c, shared, events, readings, k + 1, n);
    var after := AfterEvents(b, c, shared, events, readings, k + 1);
    var j :| 0 <= j < |before.pending| && before.pending[j] == item;
    assert HasPair(before.pending[j], after.poses, |before.poses|, hpr);
    var i :| |before.poses| <= i < |after.poses| && Joins(after.poses[i], item, hpr);
    assert AfterEvents(b, c, shared, events, readings, n).poses[i] == after.poses[i];
  }

  lemma MayClear(before: seq<Fate>, after: seq<Fate>, cleared: bool, mayClear: bool)
    requires Sealed(before, after, cleared) && (cleared ==> mayClear)
    ensures Sealed(before, after, mayClear)
  {
  }

  class PoseMatcher {
    const enabled: bool
    const tolerance: real
    const attitudeTimeout: real
    /** Written by the serial thread. */
    var latestHpr: Option<(Hpr, real)>
    var serialReady: bool

    var attitudeStalePublished: bool
    var localPoseValid: bool
    var pending: seq<Item>
    /** What was published: the poses, and for each attitude whether it was fresh. */
    var poses: seq<Pose>
    var attitudes: seq<bool>

    /** Numbers the samples; only the record of their fates needs it. */
    var arrivals: nat
    ghost var fates: seq<Fate>
    ghost var clock: real

    ghost predicate Steady()
      reads this
    {
      && Flags(localPoseValid, poses, attitudeStalePublished, attitudes)
      && AllSound(poses, tolerance) && AllHonest(pending, clock)
      && (!enabled ==> pending == [] && poses == []) && arrivals == |fates|
    }

    ghost predicate Valid()
      reads this
    {
      Steady() && Consistent(pending, poses, fates)
    }

    constructor (enabled: bool, tolerance: real, attitudeTimeout: real)
      ensures Valid() && fates == [] && attitudes == [] && poses == []
    {
      this.enabled := enabled;
      this.tolerance := tolerance;
      this.attitudeTimeout := attitudeTimeout;
      latestHpr, serialReady := None, false;
      attitudeStalePublished, localPoseValid, pending, poses, attitudes := false, false, [], [], [];
      arrivals, fates, clock := 0, [], 0.0;
    }

    /** Publishes sample `k` when those before `settled` are settled, with or without a heading. */
    method PublishLocalPose(ghost settled: nat, ghost k: nat, item: Item, hpr: Option<Hpr>)
      requires Steady() && enabled && settled <= k < |pending| && Consistent(pending[settled..], poses, fates)
      requires item == pending[k] && (hpr.Some? ==> Within(item.gga, hpr.value, tolerance))
      modifies this`localPoseValid, this`poses, this`fates
      ensures Steady() && Consistent(pending[k + 1..], poses, fates)
      ensures poses == old(poses) + [PoseOf(item, hpr)] && Sealed(old(fates), fates, false)
    {
      hide Consistent, Within, Near, AllSound, AllHonest, StaleOnce, Flags, Sealed;
      var hasFix := item.hasFix;
      if hasFix && !item.gga.projectable {
        hasFix := false;
      }
      var headingValid := hpr.Some? && hpr.value.dataValid;
      localPoseValid := hasFix && headingValid;
      var pose := Pose(Some(item), hpr, localPoseValid);
      HonestAt(pending, clock, k);
      if hpr.Some? {
        WithinIsNear(item.gga, hpr.value, tolerance);
      }
      SoundMore(poses, tolerance, pose);
      FlagsPose(old(localPoseValid), poses, attitudeStalePublished, attitudes, pose);
      Publishes(pending[settled..], poses, fates, k - settled, pose);
      assert pending[settled..][k - settled + 1..] == pending[k + 1..];
      poses := poses + [pose];
      fates := Settled(fates, item.id);
    }

    /** Withdraws the last pose if it was valid. */
    method PublishInvalidLocalPose()
      requires Valid()
      modifies this`localPoseValid, this`poses
      ensures Valid() && !localPoseValid
      ensures poses == if old(localPoseValid) then old(poses) + [Pose(None, None, false)] else old(poses)
    {
      hide Consistent;
      if !enabled || !localPoseValid {
        return;
      }
      Withdraws(pending, poses, fates, Pose(None, None, false));
      localPoseValid := false;
      poses := poses + [Pose(None, None, false)];
    }

    /** Publishes what waits for a heading of this time; the newest of these supersedes what waited before it. */
    method MatchPendingLocalPoses(hpr: Hpr, isFresh: bool)
      requires Valid()
      modifies this`localPoseValid, this`poses, this`fates, this`pending
      ensures Valid() && Sealed(old(fates), fates, false)
      ensures !isFresh ==> pending == old(pending) && poses == old(poses) && fates == old(fates)
      ensures isFresh ==> poses == old(poses) + MatchPoses(old(pending), hpr, tolerance, |old(pending)|)
      ensures isFresh ==> pending == old(pending)[LastMatch(old(pending), hpr, tolerance, |old(pending)|)..]
    {
      hide Consistent, Within, Sealed, AllSound, AllHonest, Flags, PoseOf, HasFix;
      SealedSelf(fates, false);
      if !enabled || !isFresh {
        return;
      }
      var matched: seq<nat> := [];
      ghost var settled: nat := 0;
      assert pending[0..] == pending;
      for index := 0 to |pending|
        invariant Steady() && pending == old(pending)
        invariant settled == (if matched == [] then 0 else matched[|matched| - 1] + 1)
        invariant settled == LastMatch(pending, hpr, tolerance, index)
        invariant Consistent(pending[settled..], poses, fates) && Sealed(old(fates), fates, false)
        invariant poses == old(poses) + MatchPoses(pending, hpr, tolerance, index)
      {
        var item := pending[index];
        if Within(item.gga, hpr, tolerance) {
          ghost var before := fates;
          PublishLocalPose(settled, index, item, Some(hpr));
          SealedTwice(old(fates), before, fates, false, false);
          matched := matched + [index];
          settled := index + 1;
        }
      }
      if matched == [] {
        return;
      }
      var lastMatched := matched[|matched| - 1];
      HonestRest(pending, clock, lastMatched + 1);
      pending := pending[lastMatched + 1..];
    }

    /** Publishes without a heading what has waited for the tolerance or longer. */
    method ExpirePendingLocalPoses(now: real)
      requires Valid() && now >= clock
      modifies this`localPoseValid, this`poses, this`fates, this`pending, this`clock
      ensures Valid() && Sealed(old(fates), fates, false) && clock == now
      ensures NoneDue(pending, now, tolerance) && |pending| <= |old(pending)|
      ensures var e := |old(pending)| - |pending|;
              && pending == old(pending)[e..] && poses == old(poses) + ExpiredPoses(old(pending), e)
              && AllDue(old(pending)[..e], now, tolerance)
    {
      hide Consistent, Within, Sealed, AllSound, AllHonest, Flags, PoseOf, HasFix, ExpiredPoses, Sorted, AllDue;
      HonestLater(pending, clock, now);
      clock := now;
      SealedSelf(fates, false);
      ExpiredNone(pending);
      DueNone(now, tolerance);
      assert pending[..0] == [] && pending[0..] == pending;
      if !enabled || pending == [] {
        return;
      }
      InTime(pending, poses, fates);
      var kept: seq<Item> := [];
      ghost var e: nat := 0;
      for k := 0 to |pending|
        invariant Steady() && pending == old(pending) && clock == now
        invariant e <= k && kept == pending[e..k] && NoneDue(kept, now, tolerance)
        invariant AllDue(pending[..e], now, tolerance)
        invariant Consistent(pending[e..], poses, fates) && Sealed(old(fates), fates, false)
        invariant poses == old(poses) + ExpiredPoses(pending, e)
      {
        var item := pending[k];
        SortedAt(pending, e, k);
        assert e < k ==> kept[0] == pending[e];
        if now - item.receivedAt >= tolerance {
          assert e == k;
          ghost var before := fates;
          ExpiredMore(pending, e);
          OneMoreDue(pending, e, now, tolerance);
          PublishLocalPose(e, e, item, None);
          SealedTwice(old(fates), before, fates, false, false);
          e := e + 1;
        } else {
          kept := kept + [item];
        }
      }
      HonestRest(pending, clock, e);
      assert kept == pending[e..];
      pending := kept;
    }

    /** A position arrives; the clock is read when it is appended, and again for the age of the last heading. */
    method PublishGga(gga: Gga, now: real, later: real)
      requires Valid() && clock <= now <= later
      modifies this`localPoseValid, this`poses, this`fates, this`pending, this`clock, this`arrivals
      ensures Valid() && clock == later
      ensures !enabled ==> pending == old(pending) && fates == old(fates)
      ensures enabled ==> |fates| == |old(fates)| + 1 && Sealed(old(fates), fates, false)
      ensures enabled ==>
        var waiting := old(pending) + [Item(|old(fates)|, gga, HasFix(gga), now)];
        if latestHpr.Some? && serialReady && later - latestHpr.value.1 <= attitudeTimeout then
          && poses == old(poses) + MatchPoses(waiting, latestHpr.value.0, tolerance, |waiting|)
          && pending == waiting[LastMatch(waiting, latestHpr.value.0, tolerance, |waiting|)..]
        else poses == old(poses) && pending == waiting
    {
      hide Consistent, Within, Sealed, AllSound, AllHonest, Flags, PoseOf, HasFix, MatchPoses, LastMatch;
      HonestLater(pending, clock, now);
      clock := now;
      SealedSelf(fates, false);
      if enabled {
        var item := Item(arrivals, gga, HasFix(gga), now);
        HonestMore(pending, item);
        Arrives(pending, poses, fates, item);
        SealedMore(fates);
        ghost var before := fates + [Waiting];
        fates, arrivals := fates + [Waiting], arrivals + 1;
        pending := pending + [item];
        if latestHpr.Some? {
          var (hpr, receivedAt) := latestHpr.value;
          MatchPendingLocalPoses(hpr, serialReady && later - receivedAt <= attitudeTimeout);
          SealedTwice(old(fates), before, fates, false, false);
        }
      }
      HonestLater(pending, clock, later);
      clock := later;
    }

    /** An attitude, fresh or stale. */
    method PublishHpr(isFresh: bool)
      requires Flags(localPoseValid, poses, attitudeStalePublished, attitudes) && (isFresh || !attitudeStalePublished)
      modifies this`attitudes, this`attitudeStalePublished
      ensures attitudes == old(attitudes) + [isFresh] && Flags(localPoseValid, poses, !isFresh, attitudes)
      ensures attitudeStalePublished == (old(attitudeStalePublished) && !isFresh)
    {
      attitudes := attitudes + [isFresh];
      if isFresh {
        attitudeStalePublished := false;
      }
    }

    /** A heading arrives. */
    method HandleHpr(hpr: Hpr)
      requires Valid()
      modifies this`attitudes, this`attitudeStalePublished, this`localPoseValid, this`poses, this`fates, this`pending
      ensures Valid() && Sealed(old(fates), fates, false) && attitudes == old(attitudes) + [true]
      ensures poses == old(poses) + MatchPoses(old(pending), hpr, tolerance, |old(pending)|)
      ensures pending == old(pending)[LastMatch(old(pending), hpr, tolerance, |old(pending)|)..]
    {
      hide Consistent, Within, Sealed;
      PublishHpr(true);
      MatchPendingLocalPoses(hpr, true);
    }

    /** The serial port is gone: what waits is given up and a valid pose is withdrawn. */
    method HandleDisconnect()
      requires Valid()
      modifies this`localPoseValid, this`poses, this`fates, this`pending
      ensures Valid() && fates == Dropped(old(fates)) && Sealed(old(fates), fates, true) && pending == []
      ensures !localPoseValid && (poses != [] ==> !poses[|poses| - 1].valid)
      ensures poses == if old(localPoseValid) then old(poses) + [Pose(None, None, false)] else old(poses)
    {
      hide Consistent, Sealed;
      Clears(pending, poses, fates);
      pending, fates := [], Dropped(fates);
      PublishInvalidLocalPose();
    }

    /** Reports once that the heading is too old, and withdraws a valid pose. */
    method CheckAttitudeTimeout(now: real)
      requires Valid() && now >= clock
      modifies this`attitudes, this`attitudeStalePublished, this`localPoseValid, this`poses, this`clock
      ensures Valid() && clock == now
      ensures var late := latestHpr.Some? && !old(attitudeStalePublished) && now - latestHpr.value.1 >= attitudeTimeout;
              && attitudes == (if late then old(attitudes) + [false] else old(attitudes))
              && (late ==> !localPoseValid && (poses != [] ==> !poses[|poses| - 1].valid))
              && poses == if late && old(localPoseValid) then old(poses) + [Pose(None, None, false)] else old(poses)
    {
      hide Consistent;
      clock := now;
      if latestHpr.None? || attitudeStalePublished {
        return;
      }
      if now - latestHpr.value.1 < attitudeTimeout {
        return;
      }
      PublishHpr(false);
      attitudeStalePublished := true;
      PublishInvalidLocalPose();
    }

    ghost function Now(): Board
      reads this
    {
      Board(pending, poses, attitudes, arrivals)
    }

    function Config(): Settings { Settings(enabled, tolerance, attitudeTimeout) }

    /** One event of the queue. */
    method HandleEvent(event: Event, now: real, later: real)
      requires Valid() && clock <= now <= later
      modifies this
      ensures Valid() && clock <= later && latestHpr == old(latestHpr) && serialReady == old(serialReady)
      ensures Now() == AfterEvent(old(Now()), Config(), Shared(latestHpr, serialReady), event, now, later)
      ensures Sealed(old(fates), fates, event == LocalPoseInvalid)
    {
      hide Consistent, Within, Sealed, AllSound, AllHonest, StaleOnce, MatchPoses, LastMatch, HasFix;
      SealedSelf(fates, event == LocalPoseInvalid);
      match event {
        case GgaEvent(gga) => PublishGga(gga, now, later);
        case HprEvent(hpr) => HandleHpr(hpr);
        case LocalPoseInvalid => HandleDisconnect();
        case Other =>
      }
    }

    /**
     * The timer: the events taken from the queue, at most 200, then what is due. The clock is read
     * twice for each event and twice at the end. `shared` is what the serial thread has left for each
     * event and for the end.
     */
    method DrainRosEvents(events: seq<Event>, readings: seq<real>, shared: seq<Shared>)
      requires Valid() && |events| <= 200 && |readings| == 2 * |events| + 2 && |shared| == |events| + 1
      requires clock <= readings[0] && forall i :: 0 < i < |readings| ==> readings[i - 1] <= readings[i]
      modifies this
      ensures Valid() && clock == readings[2 * |events| + 1] && AllSound(poses, tolerance)
      ensures Now() == AfterDrain(old(Now()), Config(), shared, events, readings)
      ensures enabled ==> |fates| == |old(fates)| + Positions(events, |events|)
      ensures old(attitudes) + Fresh(Headings(events, |events|)) <= attitudes && old(poses) <= poses
      ensures Sealed(old(fates), fates, LocalPoseInvalid in events)
      ensures NoneDue(pending, readings[2 * |events|], tolerance)
    {
      hide Consistent, Within, Sealed, AllSound, AllHonest, Flags, MatchPoses, LastMatch, ExpiredPoses;
      hide AfterEvent, AllDue, NoneDue, Positions, Headings, Fresh;
      ghost var cleared := false;
      SealedSelf(fates, false);
      for k := 0 to |events|
        invariant Valid() && clock <= readings[2 * k]
        invariant Now() == AfterEvents(old(Now()), Config(), shared, events, readings, k)
        invariant Sealed(old(fates), fates, cleared) && (cleared ==> LocalPoseInvalid in events)
      {
        ghost var before := fates;
        assert readings[2 * k] <= readings[2 * k + 1] <= readings[2 * k + 2];
        latestHpr, serialReady := shared[k].latestHpr, shared[k].serialReady;
        HandleEvent(events[k], readings[2 * k], readings[2 * k + 1]);
        SealedTwice(old(fates), before, fates, cleared, events[k] == LocalPoseInvalid);
        cleared := cleared || events[k] == LocalPoseInvalid;
      }
      EventsBooked(old(Now()), Config(), shared, events, readings, |events|);
      latestHpr, serialReady := shared[|events|].latestHpr, shared[|events|].serialReady;
      ghost var before := fates;
      HandleDue(readings[2 * |events|], readings[2 * |events| + 1]);
      SealedTwice(old(fates), before, fates, cleared, false);
      MayClear(old(fates), fates, cleared, LocalPoseInvalid in events);
    }

    /** What is due after the events. */
    method HandleDue(now: real, later: real)
      requires Valid() && clock <= now <= later
      modifies this
      ensures Valid() && clock == later && Sealed(old(fates), fates, false)
      ensures Now() == AfterTimeout(AfterDue(old(Now()), Config(), now), Config(),
                                    old(Shared(latestHpr, serialReady)), later)
      ensures |fates| == |old(fates)| && old(poses) <= poses && old(attitudes) <= attitudes
      ensures NoneDue(pending, now, tolerance)
    {
      hide Consistent, Within, Sealed, AllSound, AllHonest, Flags, MatchPoses, LastMatch, ExpiredPoses, AllDue, NoneDue;
      ghost var waiting := pending;
      ExpirePendingLocalPoses(now);
      DueCountIs(waiting, |waiting| - |pending|, now, tolerance);
      LastFlags();
      CheckAttitudeTimeout(later);
    }

    lemma LastFlags()
      requires Steady()
      ensures localPoseValid == LastValid(poses) && attitudeStalePublished == LastStale(attitudes)
    {
    }
  }
}

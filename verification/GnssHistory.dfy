/** What becomes of the position samples: the samples that wait, the poses that were published, and a fate for each. */
module GnssHistory {
  import opened Bytes

  const DAY: real := 86400.0

  /** The hhmmss.ss field after its three numbers have been read, or a field they cannot be read from. */
  datatype Utc = Unreadable | Fields(hours: int, minutes: int, seconds: real)

  function UtcSeconds(utc: Utc): Option<real> {
    match utc
    case Unreadable => None
    case Fields(h, m, s) =>
      if !(0 <= h < 24) || !(0 <= m < 60) || !(0.0 <= s < 60.0) then None
      else Some(h as real * 3600.0 + m as real * 60.0 + s)
  }

  /** The shortest difference, around midnight if need be; none when one of the fields is bad. */
  function UtcDifference(first: Utc, second: Utc): Option<real> {
    match (UtcSeconds(first), UtcSeconds(second))
    case (Some(a), Some(b)) =>
      var difference := if a >= b then a - b else b - a;
      Some(if difference <= DAY - difference then difference else DAY - difference)
    case _ => None
  }

  /** The seconds of a readable time are those of its three numbers. */
  lemma UtcSum(utc: Utc)
    ensures UtcSeconds(utc).Some? <==>
            utc.Fields? && 0 <= utc.hours < 24 && 0 <= utc.minutes < 60 && 0.0 <= utc.seconds < 60.0
    ensures UtcSeconds(utc).Some? ==>
              UtcSeconds(utc).value == utc.hours as real * 3600.0 + utc.minutes as real * 60.0 + utc.seconds
  {
  }

  /** A time of day, or none, is within the day. */
  lemma UtcRange(utc: Utc)
    ensures UtcSeconds(utc).Some? ==> 0.0 <= UtcSeconds(utc).value < DAY
  {
    match utc
    case Unreadable =>
    case Fields(h, m, s) =>
      if 0 <= h < 24 && 0 <= m < 60 {
        assert h as real <= 23.0 && m as real <= 59.0;
      }
  }

  /** The difference is a distance on the circle of a day: at most half of it, symmetric, and by no detour shorter. */
  lemma UtcDistance(a: Utc, b: Utc, c: Utc)
    requires UtcSeconds(a).Some? && UtcSeconds(b).Some? && UtcSeconds(c).Some?
    ensures 0.0 <= UtcDifference(a, b).value <= DAY / 2.0
    ensures UtcDifference(a, b) == UtcDifference(b, a)
    ensures UtcDifference(a, b) == Some(0.0) <==> UtcSeconds(a) == UtcSeconds(b)
    ensures UtcDifference(a, c).value <= UtcDifference(a, b).value + UtcDifference(b, c).value
  {
    hide UtcSeconds;
    UtcRange(a);
    UtcRange(b);
    UtcRange(c);
  }

  /** It is the shorter way around a clock of 86400 seconds. */
  lemma UtcShorterWay(a: Utc, b: Utc)
    ensures UtcDifference(a, b).Some? <==> UtcSeconds(a).Some? && UtcSeconds(b).Some?
    ensures UtcDifference(a, b).Some? ==>
              var ahead := UtcSeconds(a).value - UtcSeconds(b).value;
              var around := if ahead < 0.0 then ahead + 86400.0 else ahead - 86400.0;
              && UtcDifference(a, b).value in {ahead, -ahead, around, -around}
              && 0.0 <= UtcDifference(a, b).value <= 43200.0
  {
    hide UtcSeconds;
    UtcRange(a);
    UtcRange(b);
  }

  datatype Gga = Gga(utc: Utc, fixQuality: int, finite: bool, projectable: bool)

  datatype Hpr = Hpr(utc: Utc, dataValid: bool)

  /** A position sample that waits for its heading; `id` counts the samples as they arrive. */
  datatype Item = Item(id: nat, gga: Gga, hasFix: bool, receivedAt: real)

  /** A published pose; the message that only withdraws a valid pose has no sample. */
  datatype Pose = Pose(item: Option<Item>, hpr: Option<Hpr>, valid: bool)

  datatype Fate = Waiting | Published | Superseded | Cleared

  ghost predicate IsPending(pending: seq<Item>, id: nat) {
    exists k :: 0 <= k < |pending| && pending[k].id == id
  }

  predicate Shows(pose: Pose, id: nat) {
    pose.item.Some? && pose.item.value.id == id
  }

  ghost predicate IsShown(poses: seq<Pose>, id: nat) {
    exists i :: 0 <= i < |poses| && Shows(poses[i], id)
  }

  /** A newer sample was published. */
  ghost predicate IsOvertaken(poses: seq<Pose>, id: nat) {
    exists i :: 0 <= i < |poses| && poses[i].item.Some? && poses[i].item.value.id > id
  }

  /** The samples wait in the order of their arrival. */
  ghost predicate Ordered(pending: seq<Item>) {
    forall i, j :: 0 <= i < j < |pending| ==>
                     pending[i].id < pending[j].id && pending[i].receivedAt <= pending[j].receivedAt
  }

  /** The poses show samples in the order of their arrival, each at most once. */
  ghost predicate InOrder(poses: seq<Pose>) {
    forall i, j :: 0 <= i < j < |poses| && poses[i].item.Some? && poses[j].item.Some? ==>
                     poses[i].item.value.id < poses[j].item.value.id
  }

  /** Every sample that waits is newer than every published one. */
  ghost predicate Newer(pending: seq<Item>, poses: seq<Pose>) {
    forall i, k :: 0 <= i < |poses| && 0 <= k < |pending| && poses[i].item.Some? ==>
        poses[i].item.value.id < pending[k].id
  }

  /** The samples that wait, and those that were published, are exactly those whose fate says so. */
  ghost predicate Accounted(pending: seq<Item>, poses: seq<Pose>, fates: seq<Fate>) {
    && (forall k :: 0 <= k < |pending| ==> pending[k].id < |fates|)
    && (forall i :: 0 <= i < |poses| && poses[i].item.Some? ==> poses[i].item.value.id < |fates|)
    && (forall id :: 0 <= id < |fates| ==> (fates[id] == Waiting <==> IsPending(pending, id)))
    && (forall id :: 0 <= id < |fates| ==> (fates[id] == Published <==> IsShown(poses, id)))
    && (forall id :: 0 <= id < |fates| && fates[id] == Superseded ==> IsOvertaken(poses, id))
  }

  ghost predicate Consistent(pending: seq<Item>, poses: seq<Pose>, fates: seq<Fate>) {
    Ordered(pending) && InOrder(poses) && Newer(pending, poses) && Accounted(pending, poses, fates)
  }

  /** No fate that was sealed has changed, and unless samples may be cleared none newly is. */
  ghost predicate Sealed(before: seq<Fate>, after: seq<Fate>, mayClear: bool) {
    && |before| <= |after| && (forall id :: 0 <= id < |before| && before[id] != Waiting ==> after[id] == before[id])
    && (mayClear || forall id :: 0 <= id < |after| && after[id] == Cleared ==> id < |before| && before[id] == Cleared)
  }

  lemma {:induction false} PendingMore(pending: seq<Item>, item: Item, id: nat)
    ensures IsPending(pending + [item], id) <==> IsPending(pending, id) || id == item.id
  {
    var more := pending + [item];
    if IsPending(pending, id) {
      var k :| 0 <= k < |pending| && pending[k].id == id;
      assert more[k].id == id;
    }
    if id == item.id {
      assert more[|pending|].id == id;
    }
  }

  lemma ShownMore(poses: seq<Pose>, pose: Pose, id: nat)
    ensures IsShown(poses + [pose], id) <==> IsShown(poses, id) || Shows(pose, id)
  {
    var more := poses + [pose];
    if IsShown(poses, id) {
      var i :| 0 <= i < |poses| && Shows(poses[i], id);
      assert Shows(more[i], id);
    }
    if Shows(pose, id) {
      assert Shows(more[|poses|], id);
    }
  }

  lemma OvertakenMore(poses: seq<Pose>, pose: Pose, id: nat)
    ensures IsOvertaken(poses, id) ==> IsOvertaken(poses + [pose], id)
    ensures pose.item.Some? && pose.item.value.id > id ==> IsOvertaken(poses + [pose], id)
  {
    var more := poses + [pose];
    assert more[|poses|] == pose;
    if IsOvertaken(poses, id) {
      var i :| 0 <= i < |poses| && poses[i].item.Some? && poses[i].item.value.id > id;
      assert more[i].item.value.id > id;
    }
  }

  /** A sample arrives. */
  lemma Arrives(pending: seq<Item>, poses: seq<Pose>, fates: seq<Fate>, item: Item)
    requires Consistent(pending, poses, fates) && item.id == |fates|
    requires forall k :: 0 <= k < |pending| ==> pending[k].receivedAt <= item.receivedAt
    ensures Consistent(pending + [item], poses, fates + [Waiting])
  {
    var fates' := fates + [Waiting];
    hide IsPending, IsShown, IsOvertaken;
    forall id: nat | id < |fates'|
      ensures fates'[id] == Waiting <==> IsPending(pending + [item], id)
      ensures fates'[id] == Published <==> IsShown(poses, id)
    {
      PendingMore(pending, item, id);
      if id == |fates| {
        NotShown(poses, fates, id);
      }
    }
  }

  lemma NotShown(poses: seq<Pose>, fates: seq<Fate>, id: nat)
    requires forall i :: 0 <= i < |poses| && poses[i].item.Some? ==> poses[i].item.value.id < |fates|
    requires id >= |fates|
    ensures !IsShown(poses, id)
  {
  }

  /** Publishing the waiting sample `j` settles the samples before it. */
  function Settled(fates: seq<Fate>, shown: nat): (r: seq<Fate>)
    ensures |r| == |fates|
  {
    seq(|fates|, id requires 0 <= id < |fates| =>
      if id == shown then Published else if fates[id] == Waiting && id < shown then Superseded else fates[id])
  }

  lemma PendingAfter(pending: seq<Item>, j: nat, id: nat)
    requires Ordered(pending) && j < |pending|
    ensures IsPending(pending[j + 1..], id) <==> IsPending(pending, id) && id > pending[j].id
  {
    var rest := pending[j + 1..];
    if IsPending(pending, id) && id > pending[j].id {
      var k :| 0 <= k < |pending| && pending[k].id == id;
      assert rest[k - j - 1].id == id;
    }
    if IsPending(rest, id) {
      var k :| 0 <= k < |rest| && rest[k].id == id;
      assert pending[k + j + 1].id == id;
    }
  }

  lemma ShowsOne(pending: seq<Item>, poses: seq<Pose>, fates: seq<Fate>, j: nat, pose: Pose)
    requires Consistent(pending, poses, fates) && j < |pending| && pose.item == Some(pending[j])
    ensures Accounted(pending[j + 1..], poses + [pose], Settled(fates, pending[j].id))
    ensures Sealed(fates, Settled(fates, pending[j].id), false)
  {
    hide IsPending, IsShown, IsOvertaken, InOrder, Newer;
    var shown := pending[j].id;
    Waits(pending, j);
    forall id: nat | id < |fates|
      ensures Settled(fates, shown)[id] == Waiting <==> IsPending(pending[j + 1..], id)
      ensures Settled(fates, shown)[id] == Published <==> IsShown(poses + [pose], id)
      ensures Settled(fates, shown)[id] == Superseded ==> IsOvertaken(poses + [pose], id)
    {
      OvertakenMore(poses, pose, id);
      PendingAfter(pending, j, id);
      ShownMore(poses, pose, id);
    }
  }

  lemma Waits(pending: seq<Item>, j: nat)
    requires j < |pending|
    ensures IsPending(pending, pending[j].id)
  {
  }

  /** Publishing the waiting sample `j` keeps the books in order. */
  lemma Publishes(pending: seq<Item>, poses: seq<Pose>, fates: seq<Fate>, j: nat, pose: Pose)
    requires Consistent(pending, poses, fates) && j < |pending| && pose.item == Some(pending[j])
    ensures Consistent(pending[j + 1..], poses + [pose], Settled(fates, pending[j].id))
    ensures Sealed(fates, Settled(fates, pending[j].id), false)
  {
    hide Accounted, IsPending, IsShown, IsOvertaken;
    ShowsOne(pending, poses, fates, j, pose);
  }

  /** A message without a sample. */
  lemma Withdraws(pending: seq<Item>, poses: seq<Pose>, fates: seq<Fate>, pose: Pose)
    requires Consistent(pending, poses, fates) && pose.item == None
    ensures Consistent(pending, poses + [pose], fates)
  {
    hide IsPending, IsShown, IsOvertaken;
    forall id: nat | id < |fates|
      ensures fates[id] == Published <==> IsShown(poses + [pose], id)
      ensures fates[id] == Superseded ==> IsOvertaken(poses + [pose], id)
    {
      OvertakenMore(poses, pose, id);
      ShownMore(poses, pose, id);
    }
  }

  function Dropped(fates: seq<Fate>): (r: seq<Fate>)
    ensures |r| == |fates|
  {
    seq(|fates|, id requires 0 <= id < |fates| => if fates[id] == Waiting then Cleared else fates[id])
  }

  /** The samples that wait are given up. */
  lemma Clears(pending: seq<Item>, poses: seq<Pose>, fates: seq<Fate>)
    requires Consistent(pending, poses, fates)
    ensures Consistent([], poses, Dropped(fates)) && Sealed(fates, Dropped(fates), true)
  {
    hide IsShown, IsOvertaken;
    forall id: nat | id < |fates| ensures Dropped(fates)[id] == Waiting <==> IsPending([], id) {
    }
  }
}

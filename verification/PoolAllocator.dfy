/**
 * The chunked bump allocator. Addresses index one array of bytes, the memory of the process; the
 * base allocator's answers are parameters. The three fields at the start of a chunk are an object.
 */
module PoolAllocator {
  import opened Bytes

  const WRAP := 0x1_0000_0000_0000_0000
  const HEADER := 24
  const NULL := 0

  /** `RAPIDJSON_ALIGN` on a `size_t`. */
  function Align(n: nat): nat { (n + 7) % WRAP / 8 * 8 }

  /** The next multiple of eight, whatever its size. */
  function RoundUp(n: nat): nat { (n + 7) / 8 * 8 }

  /** The test whether the head chunk has room, with the sums of a `size_t`. */
  predicate RoomTest(used: nat, size: nat, capacity: nat) {
    (used + Align(size)) % WRAP <= capacity
  }

  /** The test answers rightly exactly when neither of its sums wraps around. */
  lemma RoomTestExact(used: nat, size: nat, capacity: nat)
    requires used <= capacity < WRAP && size < WRAP
    ensures (RoomTest(used, size, capacity) <==> used + RoundUp(size) <= capacity)
            <==> size + 7 < WRAP && used + RoundUp(size) < WRAP
  {
    if size + 7 >= WRAP {
      assert (size + 7) % WRAP == size + 7 - WRAP;
    } else if used + RoundUp(size) >= WRAP {
      assert (used + Align(size)) % WRAP == used + Align(size) - WRAP;
    }
  }

  /** A chunk as it lies in memory: its header, and `size` of `capacity` bytes after it in use. */
  datatype Region = Region(base: nat, capacity: nat, size: nat) {
    function Data(): nat { base + HEADER }

    predicate Holds(p: nat, n: nat) {
      Data() <= p && p + n <= Data() + size && (p - Data()) % 8 == 0
    }
  }

  /** Two regions of memory have no byte in common. */
  predicate Apart(p: nat, n: nat, q: nat, m: nat) { p + n <= q || q + m <= p }

  predicate RegionValid(r: Region, limit: nat) {
    NULL < r.base && r.base + HEADER + r.capacity <= limit && r.size <= r.capacity && r.size % 8 == 0
  }

  ghost predicate RegionsValid(regions: seq<Region>, limit: nat) {
    && (forall i :: 0 <= i < |regions| ==> RegionValid(regions[i], limit))
    && (forall i, j :: 0 <= i < j < |regions| ==>
          Apart(regions[i].base, HEADER + regions[i].capacity, regions[j].base, HEADER + regions[j].capacity))
  }

  /** What the base allocator promises of an address it gives: aligned, and apart from every chunk. */
  ghost predicate Available(regions: seq<Region>, limit: nat, at: nat, n: nat) {
    && NULL < at && at % 8 == 0 && at + n <= limit
    && forall i :: 0 <= i < |regions| ==> Apart(at, n, regions[i].base, HEADER + regions[i].capacity)
  }

  ghost predicate Housed(regions: seq<Region>, p: nat, n: nat) {
    exists i :: 0 <= i < |regions| && regions[i].Holds(p, n)
  }

  /** The live blocks, with the bytes reserved for each, are in the used part of a chunk and pairwise apart. */
  ghost predicate BlocksValid(regions: seq<Region>, blocks: map<nat, nat>) {
    && (forall p :: p in blocks ==> Housed(regions, p, blocks[p]))
    && (forall p :: p in blocks ==> blocks[p] > 0 && blocks[p] % 8 == 0)
    && (forall p, q :: p in blocks && q in blocks && p != q ==> Apart(p, blocks[p], q, blocks[q]))
  }

  function UsedBytes(regions: seq<Region>): nat {
    if regions == [] then 0 else regions[0].size + UsedBytes(regions[1..])
  }

  function CapacityBytes(regions: seq<Region>): nat {
    if regions == [] then 0 else regions[0].capacity + CapacityBytes(regions[1..])
  }

  /* ----- the chunks lie apart in memory, so their bytes are no more than it has ----- */

  predicate From(lo: nat, a: nat) { lo <= a }

  function Range(lo: nat, hi: nat): set<nat> { set a: nat | a < hi && From(lo, a) }

  function Footprint(regions: seq<Region>): set<nat> {
    if regions == [] then {}
    else Range(regions[0].base, regions[0].Data() + regions[0].capacity) + Footprint(regions[1..])
  }

  lemma {:induction false} RangeSize(lo: nat, hi: nat)
    requires lo <= hi
    ensures |Range(lo, hi)| == hi - lo
    decreases hi - lo
  {
    if lo < hi {
      RangeSize(lo, hi - 1);
      assert Range(lo, hi) == Range(lo, hi - 1) + {hi - 1};
    }
  }

  /** What no chunk covers is not in the footprint. */
  lemma {:induction false} NotInFootprint(regions: seq<Region>, a: nat)
    requires forall i :: 0 <= i < |regions| ==> !(regions[i].base <= a < regions[i].Data() + regions[i].capacity)
    ensures a !in Footprint(regions)
  {
    if regions != [] {
      NotInFootprint(regions[1..], a);
    }
  }

  lemma FootprintsApart(regions: seq<Region>, limit: nat)
    requires RegionsValid(regions, limit) && regions != []
    ensures Range(regions[0].base, regions[0].Data() + regions[0].capacity) !! Footprint(regions[1..])
  {
    var rest := regions[1..];
    forall a | a in Range(regions[0].base, regions[0].Data() + regions[0].capacity) ensures a !in Footprint(rest) {
      forall i | 0 <= i < |rest| ensures !(rest[i].base <= a < rest[i].Data() + rest[i].capacity) {
        assert rest[i] == regions[i + 1];
        assert Apart(regions[0].base, HEADER + regions[0].capacity,
                     regions[i + 1].base, HEADER + regions[i + 1].capacity);
      }
      NotInFootprint(rest, a);
    }
  }

  lemma {:induction false} FootprintSize(regions: seq<Region>, limit: nat)
    requires RegionsValid(regions, limit)
    ensures |Footprint(regions)| >= CapacityBytes(regions) && Footprint(regions) <= Range(0, limit)
  {
    if regions != [] {
      FootprintsApart(regions, limit);
      RestValid(regions, limit);
      FootprintSize(regions[1..], limit);
      var first := Range(regions[0].base, regions[0].Data() + regions[0].capacity);
      RangeSize(regions[0].base, regions[0].Data() + regions[0].capacity);
      assert RegionValid(regions[0], limit);
      assert first <= Range(0, limit);
      assert |first + Footprint(regions[1..])| == |first| + |Footprint(regions[1..])|;
    }
  }

  lemma RestValid(regions: seq<Region>, limit: nat)
    requires RegionsValid(regions, limit) && regions != []
    ensures RegionsValid(regions[1..], limit)
  {
    var rest := regions[1..];
    assert forall i | 0 <= i < |rest| :: rest[i] == regions[i + 1];
  }

  lemma SubsetSize(a: set<nat>, b: set<nat>)
    requires a <= b
    ensures |a| <= |b|
  {
    assert b == a + (b - a);
    assert |b| == |a| + |b - a|;
  }

  /** The capacities of all chunks sum up to no more than the memory has, and the used bytes to no more than them. */
  lemma SumsFit(regions: seq<Region>, limit: nat)
    requires RegionsValid(regions, limit)
    ensures UsedBytes(regions) <= CapacityBytes(regions) <= limit
  {
    FootprintSize(regions, limit);
    SubsetSize(Footprint(regions), Range(0, limit));
    RangeSize(0, limit);
    UsedWithinCapacity(regions, limit);
  }

  lemma {:induction false} UsedWithinCapacity(regions: seq<Region>, limit: nat)
    requires RegionsValid(regions, limit)
    ensures UsedBytes(regions) <= CapacityBytes(regions)
  {
    if regions != [] {
      assert RegionValid(regions[0], limit);
      RestValid(regions, limit);
      UsedWithinCapacity(regions[1..], limit);
    }
  }

  function Bases(regions: seq<Region>): set<nat> {
    if regions == [] then {} else {regions[0].base} + Bases(regions[1..])
  }

  /** The chunks of the base allocator: all but the user's buffer, the last one. */
  function FromBase(regions: seq<Region>, user: bool): seq<Region> {
    if user && regions != [] then regions[..|regions| - 1] else regions
  }

  lemma BasesOfMore(r: Region, regions: seq<Region>, user: bool)
    requires user ==> regions != []
    ensures Bases(FromBase([r] + regions, user)) == {r.base} + Bases(FromBase(regions, user))
  {
    assert FromBase([r] + regions, user) == [r] + FromBase(regions, user);
  }

  lemma {:induction false} BasesOfBumped(regions: seq<Region>, user: bool, n: nat)
    requires regions != []
    ensures Bases(FromBase(Bumped(regions, n), user)) == Bases(FromBase(regions, user))
  {
    assert Bumped(regions, n)[1..] == regions[1..];
    if user && |regions| > 1 {
      assert FromBase(Bumped(regions, n), user)[1..] == FromBase(regions, user)[1..];
    }
  }

  lemma {:induction false} BaseNotInRest(r: Region, regions: seq<Region>)
    requires forall i :: 0 <= i < |regions| ==> regions[i].base != r.base
    ensures r.base !in Bases(regions)
  {
    if regions != [] {
      assert regions[0].base != r.base;
      BaseNotInRest(r, regions[1..]);
    }
  }

  /** Giving back the head chunk, when it is not the user's buffer. */
  lemma BasesOfFewer(regions: seq<Region>, user: bool, limit: nat)
    requires RegionsValid(regions, limit) && |regions| > if user then 1 else 0
    ensures regions[0].base in Bases(FromBase(regions, user))
    ensures Bases(FromBase(regions[1..], user)) == Bases(FromBase(regions, user)) - {regions[0].base}
    ensures RegionsValid(regions[1..], limit)
  {
    var given := FromBase(regions, user);
    assert FromBase(regions[1..], user) == given[1..];
    forall i | 0 <= i < |given[1..]| ensures given[1..][i].base != regions[0].base {
      assert Apart(regions[0].base, HEADER + regions[0].capacity, regions[i + 1].base,
                   HEADER + regions[i + 1].capacity);
    }
    BaseNotInRest(regions[0], given[1..]);
  }

  /** The head chunk with `n` more bytes in use. */
  function Bumped(regions: seq<Region>, n: nat): seq<Region>
    requires regions != []
  {
    regions[0 := regions[0].(size := regions[0].size + n)]
  }

  lemma NewRegion(regions: seq<Region>, blocks: map<nat, nat>, limit: nat, at: nat, capacity: nat)
    requires RegionsValid(regions, limit) && BlocksValid(regions, blocks)
    requires Available(regions, limit, at, HEADER + capacity)
    ensures var longer := [Region(at, capacity, 0)] + regions;
            RegionsValid(longer, limit) && BlocksValid(longer, blocks)
  {
    var longer := [Region(at, capacity, 0)] + regions;
    forall p | p in blocks ensures Housed(longer, p, blocks[p]) {
      var i :| 0 <= i < |regions| && regions[i].Holds(p, blocks[p]);
      assert longer[i + 1].Holds(p, blocks[p]);
    }
  }

  lemma BumpedRegions(regions: seq<Region>, limit: nat, n: nat)
    requires RegionsValid(regions, limit) && regions != []
    requires n % 8 == 0 && regions[0].size + n <= regions[0].capacity
    ensures RegionsValid(Bumped(regions, n), limit)
  {
  }

  /** The bytes up to the new top of the head chunk are housed. */
  lemma TopHoused(regions: seq<Region>, n: nat, p: nat, m: nat)
    requires regions != [] && regions[0].Data() <= p && (p - regions[0].Data()) % 8 == 0
    requires p + m == regions[0].Data() + regions[0].size + n
    ensures Housed(Bumped(regions, n), p, m)
  {
    assert Bumped(regions, n)[0].Holds(p, m);
  }

  lemma StillHoused(regions: seq<Region>, n: nat, p: nat, m: nat)
    requires regions != [] && Housed(regions, p, m)
    ensures Housed(Bumped(regions, n), p, m)
  {
    var i :| 0 <= i < |regions| && regions[i].Holds(p, m);
    assert Bumped(regions, n)[i].Holds(p, m);
  }

  /** What is housed is apart from the unused part of the head chunk. */
  lemma BelowTop(regions: seq<Region>, limit: nat, n: nat, q: nat, m: nat)
    requires RegionsValid(regions, limit) && regions != [] && Housed(regions, q, m)
    requires regions[0].size + n <= regions[0].capacity
    ensures Apart(regions[0].Data() + regions[0].size, n, q, m)
  {
    var i :| 0 <= i < |regions| && regions[i].Holds(q, m);
    assert RegionValid(regions[i], limit);
  }

  /** Whether the head chunk lacks the room for `n` more bytes. */
  predicate Full(regions: seq<Region>, n: nat) {
    regions == [] || regions[0].size + n > regions[0].capacity
  }

  /** The capacity of a chunk made for `n` bytes. */
  function ChunkFor(standard: nat, n: nat): nat {
    if standard > n then standard else n
  }

  /** A request is met right: no block is wanted, or the sums that are made for it stay below 2^64. */
  predicate NoWrap(regions: seq<Region>, standard: nat, size: nat) {
    size == 0 ||
    (&& size + 7 < WRAP
     && (regions != [] ==> regions[0].size + RoundUp(size) < WRAP)
     && (Full(regions, RoundUp(size)) ==> HEADER + ChunkFor(standard, RoundUp(size)) < WRAP))
  }

  /** How a request is met: not at all, from the head chunk, or from a chunk of so many granted bytes. */
  datatype Plan = NoBlock | FromHead | FromChunk(granted: nat)

  /** The decision with the sums of a `size_t`. */
  function PlanFor(regions: seq<Region>, standard: nat, size: nat): Plan {
    if size == 0 then NoBlock
    else if regions != [] && RoomTest(regions[0].size, size, regions[0].capacity) then FromHead
    else FromChunk((HEADER + ChunkFor(standard, Align(size))) % WRAP)
  }

  /** The block lies in what was granted for it. */
  predicate Contained(regions: seq<Region>, size: nat, plan: Plan) {
    match plan
    case NoBlock => size == 0
    case FromHead => !Full(regions, RoundUp(size))
    case FromChunk(granted) => HEADER + RoundUp(size) <= granted
  }

  /** The numbers of a request are of type `size_t`, and the head chunk is within its capacity. */
  predicate Representable(regions: seq<Region>, standard: nat, size: nat) {
    standard < WRAP && size < WRAP && (regions != [] ==> regions[0].size <= regions[0].capacity < WRAP)
  }

  /** A request gets a block inside what was granted exactly when none of its sums wraps around. */
  lemma RequestExact(regions: seq<Region>, standard: nat, size: nat)
    requires Representable(regions, standard, size)
    ensures Contained(regions, size, PlanFor(regions, standard, size)) <==> NoWrap(regions, standard, size)
  {
    if size > 0 {
      AlignWraps(size);
      if regions != [] {
        RoomTestExact(regions[0].size, size, regions[0].capacity);
      }
      GrantWraps(HEADER + ChunkFor(standard, Align(size)));
    }
  }

  lemma AlignWraps(size: nat)
    requires 0 < size < WRAP
    ensures Align(size) == if size + 7 < WRAP then RoundUp(size) else 0
    ensures size + 7 >= WRAP ==> RoundUp(size) == WRAP
    ensures size + 7 < WRAP ==> 0 < RoundUp(size) < WRAP
  {
  }

  lemma GrantWraps(n: nat)
    requires n < WRAP + HEADER
    ensures n % WRAP == if n < WRAP then n else n - WRAP
  {
  }

  /** A request that passes the room test rightly, and is granted eight bytes: less than the header. */
  lemma GrantTooSmall()
    ensures var regions, size := [Region(8, 1000, 0)], WRAP - 16;
            && !RoomTest(0, size, 1000) && 0 + RoundUp(size) < WRAP
            && PlanFor(regions, 65536, size) == FromChunk(8) && !NoWrap(regions, 65536, size)
  {
    AlignWraps(WRAP - 16);
    GrantWraps(HEADER + (WRAP - 16));
  }

  /** The sums made for a reallocation of `p` from `o` bytes, rounded up, to `newSize` stay below 2^64. */
  predicate ReallocNoWrap(regions: seq<Region>, standard: nat, p: nat, o: nat, newSize: nat) {
    if p == NULL then NoWrap(regions, standard, newSize)
    else
      newSize == 0 ||
      (newSize + 7 < WRAP &&
       (Reallocation(regions, p, o, RoundUp(newSize)) == Move ==> NoWrap(regions, standard, RoundUp(newSize))))
  }

  /** The block of a reallocation lies in what is reserved where it ends up, as the sums of a `size_t` decide that. */
  predicate ReallocContained(regions: seq<Region>, standard: nat, p: nat, o: nat, newSize: nat) {
    var n := Align(newSize);
    if p == NULL then Contained(regions, newSize, PlanFor(regions, standard, newSize))
    else if newSize == 0 then true
    else if o >= n then RoundUp(newSize) <= o
    else if AtTop(regions, p, o) && (regions[0].size + (n - o)) % WRAP <= regions[0].capacity then
      regions[0].size - o + RoundUp(newSize) <= regions[0].capacity
    else Contained(regions, RoundUp(newSize), PlanFor(regions, standard, n))
  }

  lemma ReallocExact(regions: seq<Region>, standard: nat, p: nat, o: nat, newSize: nat)
    requires Representable(regions, standard, newSize) && o < WRAP && o % 8 == 0
    requires AtTop(regions, p, o) ==> o <= regions[0].size
    ensures ReallocContained(regions, standard, p, o, newSize) <==> ReallocNoWrap(regions, standard, p, o, newSize)
  {
    hide PlanFor, Contained, NoWrap;
    if p == NULL {
      RequestExact(regions, standard, newSize);
    } else if newSize > 0 {
      AlignWraps(newSize);
      var n := Align(newSize);
      if o < n {
        RequestExact(regions, standard, n);
        RoundUpTwice(newSize);
        if AtTop(regions, p, o) {
          TopSum(regions, standard, o, n);
        }
      }
    }
  }

  lemma RoundUpTwice(n: nat)
    ensures RoundUp(RoundUp(n)) == RoundUp(n)
  {
  }

  /** The test for growing in place errs only when the sum wraps, and then no other sum is right either. */
  lemma TopSum(regions: seq<Region>, standard: nat, o: nat, n: nat)
    requires regions != [] && o < n < WRAP && RoundUp(n) == n && regions[0].size <= regions[0].capacity < WRAP
    ensures (regions[0].size + (n - o)) % WRAP <= regions[0].capacity
            <==> !Full(regions, n - o) || regions[0].size + (n - o) >= WRAP
    ensures regions[0].size + (n - o) >= WRAP ==> Full(regions, n - o) && !NoWrap(regions, standard, n)
  {
    var sum := regions[0].size + (n - o);
    assert sum < 2 * WRAP;
    assert sum % WRAP == if sum < WRAP then sum else sum - WRAP;
  }

  /** The chunks when a request for `n` bytes is about to be met. */
  function WithRoom(regions: seq<Region>, standard: nat, n: nat, at: nat): (r: seq<Region>)
    ensures r != []
  {
    if Full(regions, n) then [Region(at, ChunkFor(standard, n), 0)] + regions else regions
  }

  /** Below 2^64 the sums of a `size_t` are the sums. */
  lemma PlainSums(regions: seq<Region>, standard: nat, size: nat)
    requires NoWrap(regions, standard, size)
    ensures Align(size) == RoundUp(size) && RoundUp(size) % 8 == 0 && (size > 0 <==> RoundUp(size) > 0)
    ensures size > 0 && regions != [] ==>
              (regions[0].size + RoundUp(size)) % WRAP == regions[0].size + RoundUp(size)
  {
  }

  lemma HeldMod(r: Region, p: nat, n: nat)
    requires r.Holds(p, n)
    ensures p % 8 == r.base % 8
  {
    var k := (p - r.Data()) / 8;
    assert p == r.base + 8 * (k + 3);
  }

  /** A block is as far from a multiple of eight as its chunk. */
  lemma BlockAligned(regions: seq<Region>, user: bool, blocks: map<nat, nat>, p: nat)
    requires BlocksValid(regions, blocks) && p in blocks
    requires forall a :: a in Bases(FromBase(regions, user)) ==> a % 8 == 0
    ensures p % 8 == 0 || (user && regions != [] && regions[|regions| - 1].Holds(p, blocks[p])
        && p % 8 == regions[|regions| - 1].base % 8)
  {
    hide Region.Holds, Bases, Apart;
    var i :| 0 <= i < |regions| && regions[i].Holds(p, blocks[p]);
    HeldMod(regions[i], p, blocks[p]);
    if !(user && i == |regions| - 1) {
      assert FromBase(regions, user)[i] == regions[i];
      BaseAmong(FromBase(regions, user), i);
    }
  }

  lemma {:induction false} BaseAmong(regions: seq<Region>, i: nat)
    requires i < |regions|
    ensures regions[i].base in Bases(regions)
  {
    if i > 0 {
      BaseAmong(regions[1..], i - 1);
    }
  }

  /** A block is in memory, above address 0. */
  lemma BlockInMemory(regions: seq<Region>, blocks: map<nat, nat>, limit: nat, p: nat)
    requires RegionsValid(regions, limit) && BlocksValid(regions, blocks) && p in blocks
    ensures 0 < p && p + blocks[p] <= limit && regions != []
  {
    var i :| 0 <= i < |regions| && regions[i].Holds(p, blocks[p]);
    assert RegionValid(regions[i], limit);
  }

  lemma AlignBlock(size: nat, reserved: nat)
    requires RoundUp(size) <= reserved < WRAP
    ensures Align(size) == RoundUp(size)
  {
  }

  lemma AlignedDifference(a: nat, b: nat)
    requires RoundUp(a) <= RoundUp(b)
    ensures (RoundUp(b) - RoundUp(a)) % 8 == 0
  {
  }

  lemma RoundUpZero(n: nat)
    ensures RoundUp(n) == 0 <==> n == 0
  {
  }

  lemma AlignBelow(size: nat)
    requires size + 7 < WRAP
    ensures Align(size) == RoundUp(size) < WRAP && RoundUp(RoundUp(size)) == RoundUp(size)
  {
  }

  lemma HeadInMemory(regions: seq<Region>, limit: nat)
    requires RegionsValid(regions, limit) && regions != []
    ensures regions[0].size <= regions[0].capacity <= limit
  {
    assert RegionValid(regions[0], limit);
  }

  /** What the operations change: the chunks, the live blocks, and what the base allocator gave. */
  datatype Snapshot = Snapshot(regions: seq<Region>, blocks: map<nat, nat>, held: set<nat>)

  /**
   * A request for `n` bytes, rounded up, answered with `p`: with a new block in the head chunk, apart
   * from every live one, or with nothing when none are wanted or no chunk is to be had.
   */
  ghost predicate Served(s: Snapshot, standard: nat, n: nat, at: nat, p: nat, s': Snapshot) {
    && (p == NULL <==> n == 0 || (Full(s.regions, n) && at == NULL))
    && (p == NULL ==> s' == s)
    && (p != NULL ==>
          && p !in s.blocks && s'.blocks == s.blocks[p := n]
          && (forall q :: q in s.blocks ==> Apart(p, n, q, s.blocks[q]))
          && s'.regions == Bumped(WithRoom(s.regions, standard, n, at), n)
          && p + n == s'.regions[0].Data() + s'.regions[0].size
          && s'.held == if Full(s.regions, n) then s.held + {at} else s.held)
  }

  /** The size reserved for a request is the first multiple of eight that is no smaller. */
  lemma RoundUpIs(n: nat)
    ensures RoundUp(n) % 8 == 0 && n <= RoundUp(n) < n + 8
  {
  }

  predicate HasRoom(regions: seq<Region>, n: nat) {
    regions != [] && regions[0].size + n <= regions[0].capacity
  }

  /**
   * A block is cut from the head chunk whenever that has room. Otherwise a new chunk becomes the head,
   * of the pool's capacity or as large as the block if that is larger, and the block is its first.
   */
  lemma ServedIs(s: Snapshot, standard: nat, n: nat, at: nat, p: nat, s': Snapshot)
    requires Served(s, standard, n, at, p, s') && p != 0
    ensures HasRoom(s.regions, n) ==>
              && p == s.regions[0].base + 24 + s.regions[0].size && s'.held == s.held
              && s'.regions == [s.regions[0].(size := s.regions[0].size + n)] + s.regions[1..]
    ensures !HasRoom(s.regions, n) ==>
              && p == at + 24 && s'.held == s.held + {at} && s'.regions != [] && s'.regions[1..] == s.regions
              && s'.regions[0].base == at && s'.regions[0].size == n
              && n <= s'.regions[0].capacity && standard <= s'.regions[0].capacity
              && s'.regions[0].capacity in {standard, n}
  {
  }

  /** The cases of a reallocation of `p` from `o` to `n` bytes, both rounded up. */
  datatype Case = Keep | InPlace | Move

  /** The block of `o` bytes ends where the used part of the head chunk ends. */
  predicate AtTop(regions: seq<Region>, p: nat, o: nat) {
    regions != [] && p + o == regions[0].Data() + regions[0].size
  }

  /** The block is the last one of the head chunk, which has room for it to grow. */
  predicate LastWithRoom(regions: seq<Region>, p: nat, o: nat, n: nat) {
    p != 0 && o < n && regions != [] && p + o == regions[0].base + 24 + regions[0].size
        && regions[0].size + (n - o) <= regions[0].capacity
  }

  function Reallocation(regions: seq<Region>, p: nat, o: nat, n: nat): Case {
    if p != NULL && (n == 0 || o >= n) then Keep
    else if p != NULL && AtTop(regions, p, o) && !Full(regions, n - o) then InPlace
    else Move
  }

  /** A block cut from the unused part of the head chunk. */
  lemma NewBlock(regions: seq<Region>, blocks: map<nat, nat>, limit: nat, n: nat)
    requires RegionsValid(regions, limit) && BlocksValid(regions, blocks) && regions != []
    requires 0 < n && n % 8 == 0 && regions[0].size + n <= regions[0].capacity
    ensures var p := regions[0].Data() + regions[0].size;
            && p !in blocks && BlocksValid(Bumped(regions, n), blocks[p := n])
            && forall q :: q in blocks ==> Apart(p, n, q, blocks[q])
  {
    hide RegionsValid, Bumped, Housed;
    var p := regions[0].Data() + regions[0].size;
    forall q | q in blocks
      ensures Apart(p, n, q, blocks[q]) && Housed(Bumped(regions, n), q, blocks[q])
    {
      BelowTop(regions, limit, n, q, blocks[q]);
      StillHoused(regions, n, q, blocks[q]);
    }
    HeadSize(regions, limit);
    TopHoused(regions, n, p, n);
  }

  lemma HeadSize(regions: seq<Region>, limit: nat)
    requires RegionsValid(regions, limit) && regions != []
    ensures regions[0].size % 8 == 0
  {
  }

  lemma AlsoApart(p: nat, n: nat, more: nat, q: nat, m: nat)
    requires Apart(p, n, q, m) && Apart(p + n, more, q, m) && n > 0 && m > 0
    ensures Apart(p, n + more, q, m) && Apart(q, m, p, n + more)
  {
  }

  /** The block that ends at the top of the head chunk grows in place. */
  lemma GrownBlock(regions: seq<Region>, blocks: map<nat, nat>, limit: nat, p: nat, n: nat)
    requires RegionsValid(regions, limit) && BlocksValid(regions, blocks) && regions != []
    requires p in blocks && p + blocks[p] == regions[0].Data() + regions[0].size
    requires n % 8 == 0 && regions[0].size + n <= regions[0].capacity
    requires regions[0].Holds(p, blocks[p])
    ensures BlocksValid(Bumped(regions, n), blocks[p := blocks[p] + n])
  {
    hide RegionsValid, Bumped, Housed, Apart;
    forall q | q in blocks
      ensures Housed(Bumped(regions, n), q, blocks[q])
      ensures q != p ==> Apart(p, blocks[p] + n, q, blocks[q]) && Apart(q, blocks[q], p, blocks[p] + n)
    {
      BelowTop(regions, limit, n, q, blocks[q]);
      StillHoused(regions, n, q, blocks[q]);
      if q != p {
        AlsoApart(p, blocks[p], n, q, blocks[q]);
      }
    }
    TopHoused(regions, n, p, blocks[p] + n);
  }

  /** A live block that ends where the head chunk's used part ends is the last one of the head chunk. */
  lemma LastBlock(regions: seq<Region>, blocks: map<nat, nat>, limit: nat, p: nat, n: nat)
    requires RegionsValid(regions, limit) && BlocksValid(regions, blocks) && regions != []
    requires p in blocks && n <= blocks[p] && p + n == regions[0].Data() + regions[0].size
    ensures n == blocks[p] && regions[0].Holds(p, n)
  {
    var i :| 0 <= i < |regions| && regions[i].Holds(p, blocks[p]);
    assert RegionValid(regions[i], limit);
  }

  class Chunk {
    const base: nat
    const capacity: nat
    var size: nat
    const next: Chunk?

    constructor (base: nat, capacity: nat, next: Chunk?)
      ensures this.base == base && this.capacity == capacity && this.size == 0 && this.next == next
    {
      this.base := base;
      this.capacity := capacity;
      this.size := 0;
      this.next := next;
    }

    ghost predicate Inside(p: nat, n: nat)
      reads this
    {
      Region(base, capacity, size).Holds(p, n)
    }
  }

  ghost function Head(chunks: seq<Chunk>): Chunk? {
    if chunks == [] then null else chunks[0]
  }

  ghost predicate Linked(chunks: seq<Chunk>) {
    chunks == [] || (chunks[0].next == Head(chunks[1..]) && Linked(chunks[1..]))
  }

  ghost function Views(chunks: seq<Chunk>): (regions: seq<Region>)
    reads chunks
    ensures |regions| == |chunks|
  {
    if chunks == [] then []
    else [Region(chunks[0].base, chunks[0].capacity, chunks[0].size)] + Views(chunks[1..])
  }

  /** Chunks at different addresses are different chunks. */
  lemma DistinctHead(chunks: seq<Chunk>, limit: nat)
    requires RegionsValid(Views(chunks), limit) && chunks != []
    ensures chunks[0] !in chunks[1..]
  {
    hide Views;
    var regions := Views(chunks);
    forall i | 0 < i < |chunks| ensures chunks[i] != chunks[0] {
      ViewsAt(chunks, i);
      ViewsAt(chunks, 0);
      assert Apart(regions[0].base, HEADER + regions[0].capacity, regions[i].base, HEADER + regions[i].capacity);
    }
  }

  lemma {:induction false} ViewsAt(chunks: seq<Chunk>, i: nat)
    requires i < |chunks|
    ensures Views(chunks)[i] == Region(chunks[i].base, chunks[i].capacity, chunks[i].size)
  {
    if i > 0 {
      ViewsAt(chunks[1..], i - 1);
    }
  }

  lemma LastIsNotHead(chunks: seq<Chunk>, limit: nat)
    requires RegionsValid(Views(chunks), limit) && |chunks| > 1
    ensures chunks[|chunks| - 1] != chunks[0]
  {
    DistinctHead(chunks, limit);
    assert chunks[1..][|chunks| - 2] == chunks[|chunks| - 1];
  }

  lemma EmptiedBuffer(r: Region, limit: nat)
    requires RegionsValid([r], limit)
    ensures RegionsValid([r.(size := 0)], limit)
    ensures FromBase([r.(size := 0)], true) == FromBase([r], true) == []
  {
    assert RegionValid([r][0], limit);
  }

  lemma BasesOfNone(regions: seq<Region>, user: bool)
    requires |regions| == if user then 1 else 0
    ensures Bases(FromBase(regions, user)) == {}
  {
  }

  class Pool {
    var chunkHead: Chunk?
    const chunkCapacity: nat
    const userBuffer: Chunk?
    const heap: array<byte>
    /** The addresses that the base allocator gave and has not got back. */
    var held: set<nat>

    /** The list from the head on, what it looks like in memory, and the blocks given out since the last `Clear`. */
    ghost var chunks: seq<Chunk>
    ghost var regions: seq<Region>
    ghost var blocks: map<nat, nat>

    ghost predicate ListValid()
      reads this, chunks
    {
      chunkHead == Head(chunks) && Linked(chunks) && regions == Views(chunks)
    }

    /** The user's buffer is the last chunk, and the others are held from the base allocator. */
    ghost predicate HeldValid()
      reads this
    {
      && (userBuffer != null ==> chunks != [] && chunks[|chunks| - 1] == userBuffer && regions != [])
      && held == Bases(FromBase(regions, userBuffer != null))
      && (forall a :: a in held ==> a % 8 == 0)
    }

    ghost predicate Valid()
      reads this, chunks
    {
      ListValid() && HeldValid() && RegionsValid(regions, heap.Length) && BlocksValid(regions, blocks)
          && heap.Length < WRAP
    }

    ghost function State(): Snapshot
      reads this
    {
      Snapshot(regions, blocks, held)
    }

    constructor (heap: array<byte>, chunkCapacity: nat)
      requires heap.Length < WRAP
      ensures Valid() && this.heap == heap && this.chunkCapacity == chunkCapacity
      ensures userBuffer == null && blocks == map[] && held == {} && chunks == []
    {
      this.heap := heap;
      this.chunkCapacity := chunkCapacity;
      userBuffer := null;
      chunkHead := null;
      held := {};
      chunks, regions, blocks := [], [], map[];
    }

    constructor WithBuffer(heap: array<byte>, buffer: nat, size: nat, chunkCapacity: nat)
      requires buffer != NULL && size > HEADER && buffer + size <= heap.Length < WRAP
      ensures Valid() && this.heap == heap && this.chunkCapacity == chunkCapacity
      ensures userBuffer != null && fresh(userBuffer) && chunks == [userBuffer]
      ensures regions == [Region(buffer, size - HEADER, 0)]
      ensures blocks == map[] && held == {}
    {
      var c := new Chunk(buffer, size - HEADER, null);
      this.heap := heap;
      this.chunkCapacity := chunkCapacity;
      userBuffer := c;
      chunkHead := c;
      held := {};
      chunks, regions, blocks := [c], [Region(buffer, size - HEADER, 0)], map[];
    }

    /** `at` is the base allocator's answer, `NULL` when it has none. */
    method AddChunk(capacity: nat, at: nat) returns (ok: bool)
      requires Valid()
      requires at == NULL || Available(regions, heap.Length, at, HEADER + capacity)
      modifies this
      ensures Valid() && blocks == old(blocks) && ok == (at != NULL)
      ensures !ok ==> chunks == old(chunks) && regions == old(regions) && held == old(held)
      ensures ok ==> chunks != [] && fresh(chunks[0]) && chunks == [chunks[0]] + old(chunks)
      ensures ok ==> regions == [Region(at, capacity, 0)] + old(regions) && held == old(held) + {at}
    {
      hide RegionsValid, BlocksValid, Bases, FromBase;
      if at == NULL {
        return false;
      }
      NewRegion(regions, blocks, heap.Length, at, capacity);
      BasesOfMore(Region(at, capacity, 0), regions, userBuffer != null);
      var c := new Chunk(at, capacity, chunkHead);
      chunkHead := c;
      held := held + {at};
      chunks, regions := [c] + chunks, [Region(at, capacity, 0)] + regions;
      assert chunks[1..] == old(chunks) && regions[1..] == old(regions);
      ok := true;
    }

    /** Takes `n` more bytes of the head chunk into use. */
    method Bump(n: nat)
      requires Valid() && chunkHead != null
      requires n % 8 == 0 && chunkHead.size + n <= chunkHead.capacity
      modifies chunkHead, this`regions
      ensures ListValid() && HeldValid() && RegionsValid(regions, heap.Length)
      ensures old(regions) != [] && regions == Bumped(old(regions), n)
    {
      hide Bases, FromBase, RegionsValid, BlocksValid;
      BumpedRegions(regions, heap.Length, n);
      BasesOfBumped(regions, userBuffer != null, n);
      DistinctHead(chunks, heap.Length);
      chunkHead.size := chunkHead.size + n;
      regions := Bumped(regions, n);
    }

    /** Blocks outside the user's buffer are 8-aligned; those inside are exactly when the buffer is. */
    lemma BlocksAligned(p: nat)
      requires Valid() && p in blocks
      ensures p % 8 == 0 || (userBuffer != null && userBuffer.Inside(p, blocks[p]))
      ensures userBuffer != null && userBuffer.Inside(p, blocks[p]) ==> p % 8 == userBuffer.base % 8
    {
      hide RegionsValid, BlocksValid, Bases, FromBase;
      BlockAligned(regions, userBuffer != null, blocks, p);
      if userBuffer != null {
        ViewsAt(chunks, |chunks| - 1);
      }
    }

    /** The next `n` bytes of the head chunk. */
    method Cut(n: nat) returns (p: nat)
      requires Valid() && 0 < n && n % 8 == 0 && !Full(regions, n)
      modifies chunkHead, this`regions, this`blocks
      ensures Valid() && regions == Bumped(old(regions), n)
      ensures p != NULL && p + n == regions[0].Data() + regions[0].size
      ensures p !in old(blocks) && blocks == old(blocks)[p := n]
      ensures forall q :: q in old(blocks) ==> Apart(p, n, q, old(blocks)[q])
    {
      hide RegionsValid, BlocksValid, Bases, FromBase;
      p := chunkHead.base + HEADER + chunkHead.size;
      NewBlock(regions, blocks, heap.Length, n);
      Bump(n);
      blocks := blocks[p := n];
    }

    /** `at` is what the base allocator answers if a chunk is needed. */
    method Malloc(size: nat, at: nat) returns (p: nat)
      requires Valid() && NoWrap(regions, chunkCapacity, size)
      requires at == NULL || Available(regions, heap.Length, at, HEADER + ChunkFor(chunkCapacity, RoundUp(size)))
      modifies this, chunkHead
      ensures Valid()
      ensures Served(old(State()), chunkCapacity, RoundUp(size), at, p, State())
    {
      hide RegionsValid, BlocksValid, Available, Linked, Bases, FromBase, HeldValid, Apart, Bumped, Align, RoundUp,
          NoWrap;
      PlainSums(regions, chunkCapacity, size);
      if size == 0 {
        return NULL;
      }
      var n := Align(size);
      if chunkHead == null || (chunkHead.size + n) % WRAP > chunkHead.capacity {
        var ok := AddChunk(if chunkCapacity > n then chunkCapacity else n, at);
        if !ok {
          return NULL;
        }
      }
      p := Cut(n);
    }

    /** The last block of the head chunk with `n` more bytes. */
    method Extend(p: nat, o: nat, n: nat)
      requires Valid() && regions != [] && p in blocks && o <= blocks[p]
      requires p + o == regions[0].Data() + regions[0].size && n % 8 == 0 && !Full(regions, n)
      modifies chunkHead, this`regions, this`blocks
      ensures Valid() && regions == Bumped(old(regions), n) && blocks == old(blocks)[p := o + n]
    {
      hide RegionsValid, BlocksValid, Bases, FromBase;
      LastBlock(regions, blocks, heap.Length, p, o);
      GrownBlock(regions, blocks, heap.Length, p, n);
      Bump(n);
      blocks := blocks[p := o + n];
    }

    method CopyBlock(p: nat, q: nat, n: nat)
      requires p + n <= heap.Length && q + n <= heap.Length && Apart(p, n, q, n)
      modifies heap
      ensures heap[q..q + n] == old(heap[p..p + n])
      ensures forall a :: 0 <= a < heap.Length && !(q <= a < q + n) ==> heap[a] == old(heap[a])
    {
      forall i | 0 <= i < n {
        heap[q + i] := heap[p + i];
      }
    }

    /** A new block of `n` bytes that starts with the first `o` bytes of the block at `p`. */
    method Relocate(p: nat, o: nat, n: nat, at: nat) returns (q: nat)
      requires Valid() && NoWrap(regions, chunkCapacity, n) && RoundUp(n) == n > o
      requires p in blocks && o <= blocks[p]
      requires at == NULL || Available(regions, heap.Length, at, HEADER + ChunkFor(chunkCapacity, n))
      modifies this, chunkHead, heap
      ensures Valid() && Served(old(State()), chunkCapacity, n, at, q, State())
      ensures q != NULL ==> q + o <= heap.Length && p + o <= heap.Length && heap[q..q + o] == old(heap[p..p + o])
      ensures forall b, a :: b in old(blocks) && b <= a < b + old(blocks)[b] && a < heap.Length ==>
          heap[a] == old(heap[a])
    {
      hide RegionsValid, BlocksValid, Available, Linked, Bases, FromBase, HeldValid, ListValid, Bumped, RoundUp, NoWrap;
      BlockInMemory(regions, blocks, heap.Length, p);
      q := Malloc(n, at);
      if q != NULL {
        BlockInMemory(regions, blocks, heap.Length, q);
        assert Apart(q, n, p, old(blocks)[p]);
        CopyBlock(p, q, o);
      }
    }

    method Realloc(p: nat, originalSize: nat, newSize: nat, at: nat) returns (q: nat)
      requires Valid() && ReallocNoWrap(regions, chunkCapacity, p, RoundUp(originalSize), newSize)
      requires p != NULL ==> p in blocks && RoundUp(originalSize) <= blocks[p]
      requires at == NULL || Available(regions, heap.Length, at, HEADER + ChunkFor(chunkCapacity, RoundUp(newSize)))
      modifies this, chunkHead, heap
      ensures Valid()
      ensures var o := RoundUp(originalSize); var n := RoundUp(newSize);
        match old(Reallocation(regions, p, o, n))
        case Keep => q == (if n == 0 then NULL else p) && State() == old(State())
        case InPlace =>
          q == p && State() == Snapshot(Bumped(old(regions), n - o), old(blocks)[p := n], old(held))
        case Move => Served(old(State()), chunkCapacity, n, at, q, State())
      ensures p != NULL && newSize == 0 ==> q == NULL && State() == old(State())
      ensures p != NULL && 0 < RoundUp(newSize) <= RoundUp(originalSize) ==> q == p && State() == old(State())
      ensures old(LastWithRoom(regions, p, RoundUp(originalSize), RoundUp(newSize))) ==> q == p && held == old(held)
      ensures q != NULL && p != NULL ==>
        var o := RoundUp(originalSize); var n := RoundUp(newSize); var kept := if o < n then o else n;
        q + kept <= heap.Length && p + kept <= heap.Length && heap[q..q + kept] == old(heap[p..p + kept])
      ensures forall b, a :: b in old(blocks) && b <= a < b + old(blocks)[b] && a < heap.Length ==>
          heap[a] == old(heap[a])
    {
      hide RegionsValid, BlocksValid, Available, Linked, Bases, FromBase, HeldValid;
      hide Apart, Bumped, Align, RoundUp, NoWrap, Served;
      if p == NULL {
        PlainSums(regions, chunkCapacity, newSize);
        q := Malloc(newSize, at);
        return;
      }
      RoundUpZero(newSize);
      if newSize == 0 {
        return NULL;
      }
      BlockInMemory(regions, blocks, heap.Length, p);
      AlignBlock(originalSize, blocks[p]);
      AlignBelow(newSize);
      var o, n := Align(originalSize), Align(newSize);
      if o >= n {
        return p;
      }
      HeadInMemory(regions, heap.Length);
      TopSum(regions, chunkCapacity, o, n);
      if p == chunkHead.base + HEADER + chunkHead.size - o
         && (chunkHead.size + (n - o)) % WRAP <= chunkHead.capacity {
        AlignedDifference(originalSize, newSize);
        Extend(p, o, n - o);
        return p;
      }
      q := Relocate(p, o, n, at);
    }

    /** Gives every chunk back to the base allocator but the user's buffer, which it empties. */
    method Clear()
      requires Valid()
      modifies this, chunkHead, userBuffer
      ensures Valid() && blocks == map[] && held == {}
      ensures chunks == if userBuffer == null then [] else [userBuffer]
      ensures userBuffer != null ==> regions == [Region(userBuffer.base, userBuffer.capacity, 0)]
    {
      hide RegionsValid, Bases, FromBase;
      blocks := map[];
      while chunkHead != null && chunkHead != userBuffer
        invariant Valid() && blocks == map[]
        decreases |chunks|
      {
        FreeHead();
      }
      if |chunks| > 1 {
        LastIsNotHead(chunks, heap.Length);
      }
      BasesOfNone(regions, userBuffer != null);
      if chunkHead != null && chunkHead == userBuffer {
        EmptyHead();
      }
    }

    /** Gives back the head chunk; the base allocator still counts it as given. */
    method FreeHead()
      requires Valid() && blocks == map[] && chunkHead != null && chunkHead != userBuffer
      modifies this
      ensures Valid() && blocks == map[] && chunks == old(chunks)[1..]
      ensures old(chunkHead.base in held) && held == old(held) - {old(chunkHead.base)}
    {
      hide RegionsValid, Bases, FromBase;
      BasesOfFewer(regions, userBuffer != null, heap.Length);
      held := held - {chunkHead.base};
      chunkHead := chunkHead.next;
      chunks, regions := chunks[1..], regions[1..];
    }

    method EmptyHead()
      requires Valid() && blocks == map[] && chunkHead != null && chunkHead == userBuffer && chunks == [chunkHead]
      modifies this`regions, chunkHead
      ensures Valid() && regions == [Region(chunkHead.base, chunkHead.capacity, 0)]
    {
      hide RegionsValid, Bases, FromBase;
      assert regions == [regions[0]];
      EmptiedBuffer(regions[0], heap.Length);
      chunkHead.size := 0;
      regions := [regions[0].(size := 0)];
    }

    method Capacity() returns (total: nat)
      requires Valid()
      ensures total == CapacityBytes(regions) <= heap.Length
    {
      hide RegionsValid, BlocksValid;
      SumsFit(regions, heap.Length);
      total := 0;
      var c := chunkHead;
      ghost var rest := chunks;
      while c != null
        invariant c == Head(rest) && Linked(rest)
        invariant total + CapacityBytes(Views(rest)) == CapacityBytes(regions)
        decreases |rest|
      {
        NoWrapBelow(total + c.capacity);
        total := (total + c.capacity) % WRAP;
        c := c.next;
        rest := rest[1..];
      }
    }

    method Size() returns (total: nat)
      requires Valid()
      ensures total == UsedBytes(regions) <= heap.Length
    {
      hide RegionsValid, BlocksValid;
      SumsFit(regions, heap.Length);
      total := 0;
      var c := chunkHead;
      ghost var rest := chunks;
      while c != null
        invariant c == Head(rest) && Linked(rest)
        invariant forall x :: x in rest ==> x in chunks
        invariant total + UsedBytes(Views(rest)) == UsedBytes(regions)
        decreases |rest|
      {
        NoWrapBelow(total + c.size);
        total := (total + c.size) % WRAP;
        c := c.next;
        rest := rest[1..];
      }
    }
  }

  lemma NoWrapBelow(n: nat)
    requires n < WRAP
    ensures n % WRAP == n
  {
  }
}

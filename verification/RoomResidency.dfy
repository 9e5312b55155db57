/**
 Which room actors stay in memory: LRU eviction across shards against a cached
 counter, idle eviction, and the access stamps both rely on.
 */
module RoomResidency {
  import opened Lex
  import opened Sorting
  import opened Words

  /** The rooms of one shard, with the stamp of their last access. */
  type Shard = map<string, u64>

  datatype Candidate = Candidate(shard: nat, room: string, stamp: u64)

  /** Least recently used first; ties by room id, then by shard. */
  predicate EvictBefore(a: Candidate, b: Candidate) {
    a.stamp < b.stamp || (a.stamp == b.stamp && (Less(a.room, b.room) || (a.room == b.room && a.shard <= b.shard)))
  }

  lemma EvictBeforeOrders(candidates: seq<Candidate>)
    ensures OrdersAll(EvictBefore, candidates)
  {
    forall a, b | a in candidates && b in candidates
      ensures EvictBefore(a, b) || EvictBefore(b, a)
    {
      Trichotomy(a.room, b.room);
    }
    forall a, b, c | a in candidates && b in candidates && c in candidates && EvictBefore(a, b) && EvictBefore(b, c)
      ensures EvictBefore(a, c)
    {
      if Less(a.room, b.room) && Less(b.room, c.room) {
        Transitive(a.room, b.room, c.room);
      }
    }
  }

  lemma EvictBeforeHasNoTies(a: Candidate, b: Candidate)
    requires EvictBefore(a, b) && EvictBefore(b, a)
    ensures a == b
  {
    if Less(a.room, b.room) {
      Asymmetric(a.room, b.room);
    } else if Less(b.room, a.room) {
      Asymmetric(b.room, a.room);
    }
  }

  function Total(shards: seq<Shard>): nat {
    if shards == [] then 0 else Total(shards[..|shards| - 1]) + |shards[|shards| - 1]|
  }

  lemma {:induction false} TotalAfterUpdate(shards: seq<Shard>, i: nat, shard: Shard)
    requires i < |shards|
    ensures Total(shards[i := shard]) == Total(shards) - |shards[i]| + |shard|
  {
    var n := |shards| - 1;
    if i < n {
      assert shards[i := shard][..n] == shards[..n][i := shard];
      TotalAfterUpdate(shards[..n], i, shard);
    } else {
      assert shards[i := shard][..n] == shards[..n];
    }
  }

  ghost predicate Resident(shards: seq<Shard>, c: Candidate) {
    c.shard < |shards| && c.room in shards[c.shard] && shards[c.shard][c.room] == c.stamp
  }

  ghost predicate Distinct(candidates: seq<Candidate>) {
    forall i, j :: 0 <= i < j < |candidates| ==> candidates[i] != candidates[j]
  }

  /** `after` is `before` without the rooms in `evicted`. */
  ghost predicate Minus(before: seq<Shard>, after: seq<Shard>, evicted: seq<Candidate>) {
    |after| == |before| && forall c {:trigger Resident(after, c)} {:trigger Resident(before, c)} ::
      Resident(after, c) <==> Resident(before, c) && c !in evicted
  }

  /** The least recently used rooms left, exactly as many as were too many. */
  ghost predicate LruEvicted(before: seq<Shard>, after: seq<Shard>, evicted: seq<Candidate>, maxHotRooms: nat) {
    |evicted| == SaturatingSub(Total(before), maxHotRooms) && Distinct(evicted) &&
    (forall c :: c in evicted ==> Resident(before, c)) &&
    Minus(before, after, evicted) && Total(after) == Total(before) - |evicted| &&
    (forall gone, kept :: gone in evicted && Resident(after, kept) ==> EvictBefore(gone, kept))
  }

  lemma OneRoomLess(shards: seq<Shard>, c: Candidate, evicted: seq<Candidate>, before: seq<Shard>)
    requires Minus(before, shards, evicted) && Resident(shards, c)
    ensures Minus(before, shards[c.shard := shards[c.shard] - {c.room}], evicted + [c])
    ensures Total(shards[c.shard := shards[c.shard] - {c.room}]) == Total(shards) - 1
  {
    var after := shards[c.shard := shards[c.shard] - {c.room}];
    var shard := shards[c.shard];
    TotalAfterUpdate(shards, c.shard, shard - {c.room});
    assert (shard - {c.room}).Keys == shard.Keys - {c.room};
    forall d
      ensures Resident(after, d) <==> Resident(before, d) && d !in evicted + [c]
    {
      assert Resident(shards, d) <==> Resident(before, d) && d !in evicted;
    }
  }

  /** The candidates of one shard, in whatever order its hash map yields them. */
  method LruCandidates(shards: seq<Shard>, index: nat) returns (candidates: seq<Candidate>)
    requires index < |shards|
    ensures |candidates| == |shards[index]| && Distinct(candidates)
    ensures forall c :: c in candidates <==> c.shard == index && Resident(shards, c)
  {
    candidates := [];
    var shard := shards[index];
    var rest := shard.Keys;
    while rest != {}
      invariant rest <= shard.Keys && |candidates| + |rest| == |shard|
      invariant forall c :: c in candidates <==> c.shard == index && Resident(shards, c) && c.room !in rest
      invariant Distinct(candidates)
      decreases |rest|
    {
      var room :| room in rest;
      candidates := candidates + [Candidate(index, room, shard[room])];
      rest := rest - {room};
    }
  }

  method AllCandidates(shards: seq<Shard>) returns (candidates: seq<Candidate>)
    ensures |candidates| == Total(shards) && Distinct(candidates)
    ensures forall c :: c in candidates <==> Resident(shards, c)
  {
    candidates := [];
    for i := 0 to |shards|
      invariant |candidates| == Total(shards[..i]) && Distinct(candidates)
      invariant forall c :: c in candidates <==> c.shard < i && Resident(shards, c)
    {
      assert shards[..i + 1][..i] == shards[..i];
      var more := LruCandidates(shards, i);
      forall j, k | 0 <= j < k < |candidates + more|
        ensures (candidates + more)[j] != (candidates + more)[k]
      {
        assert j < |candidates| ==> candidates[j] in candidates;
        assert k >= |candidates| ==> more[k - |candidates|] in more;
      }
      candidates := candidates + more;
    }
    assert shards[..|shards|] == shards;
  }

  lemma SortKeepsDistinct(candidates: seq<Candidate>)
    requires Distinct(candidates)
    ensures Distinct(Sort(EvictBefore, candidates))
  {
    var sorted := Sort(EvictBefore, candidates);
    SortPermutes(EvictBefore, candidates);
    forall i, j | 0 <= i < j < |sorted|
      ensures sorted[i] != sorted[j]
    {
      if sorted[i] == sorted[j] {
        TwiceCountsTwo(sorted, i, j);
        OnceCountsOne(candidates, sorted[i]);
      }
    }
  }

  /** `evict_lru_sharded_rooms`. */
  method EvictLru(shards: seq<Shard>, maxHotRooms: nat)
    returns (after: seq<Shard>, ghost evicted: seq<Candidate>, count: nat)
    ensures LruEvicted(shards, after, evicted, maxHotRooms)
    ensures count == |evicted|
    ensures |after| == |shards| && count == SaturatingSub(Total(shards), maxHotRooms) &&
            Total(after) == Total(shards) - count
    ensures forall kept, gone :: Resident(after, kept) && Resident(shards, gone) && !Resident(after, gone) ==>
              EvictBefore(gone, kept)
  {
    var candidates := AllCandidates(shards);
    after, evicted, count := shards, [], 0;
    var overflow := SaturatingSub(|candidates|, maxHotRooms);
    if overflow == 0 {
      return;
    }
    if maxHotRooms == 0 {
      after, count := seq(|shards|, i => map[]), |candidates|;
      evicted := candidates;
      NoRooms(after);
      return;
    }
    var sorted := Sort(EvictBefore, candidates);
    FirstAreOldest(shards, candidates, overflow);
    evicted := sorted[..overflow];
    after, count := EvictRooms(shards, sorted[..overflow]);
  }

  /** No room that stays was accessed before one that goes; of rooms accessed together those with lesser ids go. */
  lemma EvictedWereAccessedFirst(before: seq<Shard>, after: seq<Shard>, evicted: seq<Candidate>, maxHotRooms: nat,
                                 gone: Candidate, kept: Candidate)
    requires LruEvicted(before, after, evicted, maxHotRooms)
    requires Resident(before, gone) && !Resident(after, gone) && Resident(after, kept)
    ensures gone.stamp <= kept.stamp
    ensures gone.stamp == kept.stamp ==> Less(gone.room, kept.room) || gone.room == kept.room
  {
    assert EvictBefore(gone, kept);
  }

  method EvictRooms(shards: seq<Shard>, rooms: seq<Candidate>) returns (after: seq<Shard>, count: nat)
    requires Distinct(rooms) && forall c :: c in rooms ==> Resident(shards, c)
    ensures Minus(shards, after, rooms) && Total(after) == Total(shards) - |rooms| && count == |rooms|
  {
    after, count := shards, 0;
    for i := 0 to |rooms|
      invariant count == i && Minus(shards, after, rooms[..i]) && Total(after) == Total(shards) - i
    {
      var c := rooms[i];
      assert rooms[..i + 1] == rooms[..i] + [c] && Resident(after, c);
      OneRoomLess(after, c, rooms[..i], shards);
      if c.room in after[c.shard] {
        count := count + 1;
      }
      after := after[c.shard := after[c.shard] - {c.room}];
    }
    assert rooms[..|rooms|] == rooms;
  }

  lemma {:induction false} NoRooms(shards: seq<Shard>)
    requires forall i :: 0 <= i < |shards| ==> shards[i] == map[]
    ensures Total(shards) == 0
  {
    if shards != [] {
      NoRooms(shards[..|shards| - 1]);
    }
  }

  lemma FirstAreOldest(shards: seq<Shard>, candidates: seq<Candidate>, overflow: nat)
    requires Distinct(candidates) && forall c :: c in candidates <==> Resident(shards, c)
    requires overflow <= |candidates|
    ensures var evicted := Sort(EvictBefore, candidates)[..overflow];
            Distinct(evicted) && (forall c :: c in evicted ==> Resident(shards, c)) &&
            forall gone, kept :: gone in evicted && Resident(shards, kept) && kept !in evicted ==>
              EvictBefore(gone, kept)
  {
    var sorted := Sort(EvictBefore, candidates);
    SortKeepsDistinct(candidates);
    EvictBeforeOrders(candidates);
    SortSorts(EvictBefore, candidates);
    SortPermutes(EvictBefore, candidates);
    MembersOf(sorted, candidates);
    forall gone, kept | gone in sorted[..overflow] && Resident(shards, kept) && kept !in sorted[..overflow]
      ensures EvictBefore(gone, kept)
    {
      assert kept in sorted;
      var i :| 0 <= i < overflow && sorted[i] == gone;
      var j :| 0 <= j < |sorted| && sorted[j] == kept;
      assert j >= overflow;
    }
  }

  /** When one room too many is resident, the newcomer goes at once exactly if every other room was used after it. */
  lemma NewcomerIsEvictedIffOldest(before: seq<Shard>, after: seq<Shard>, evicted: seq<Candidate>, maxHotRooms: nat,
                                   newcomer: Candidate)
    requires LruEvicted(before, after, evicted, maxHotRooms) && Resident(before, newcomer)
    requires Total(before) <= maxHotRooms + 1
    ensures !Resident(after, newcomer) <==>
              Total(before) == maxHotRooms + 1 &&
              forall other :: Resident(before, other) ==> EvictBefore(newcomer, other)
  {
    if Total(before) == maxHotRooms + 1 {
      var gone := evicted[0];
      assert evicted == [gone] && Resident(before, gone);
      if !Resident(after, newcomer) {
        forall other | Resident(before, other)
          ensures EvictBefore(newcomer, other)
        {
          assert other != newcomer ==> Resident(after, other);
        }
      } else if EvictBefore(newcomer, gone) {
        EvictBeforeHasNoTies(newcomer, gone);
      }
    }
  }

  ghost predicate EvictsNewcomer(before: seq<Shard>, newcomer: Candidate, maxHotRooms: nat) {
    Total(before) == maxHotRooms && forall other :: Resident(before, other) ==> EvictBefore(newcomer, other)
  }

  // ---------------------------------------------------------------- idle rooms

  predicate Active(stamp: u64, ttlMs: nat, nowMs: nat) {
    SaturatingSub(nowMs, stamp) <= ttlMs
  }

  ghost predicate IdleEvicted(before: seq<Shard>, after: seq<Shard>, ttlMs: nat, nowMs: nat) {
    |after| == |before| && forall c {:trigger Resident(after, c)} {:trigger Resident(before, c)} ::
      Resident(after, c) <==> Resident(before, c) && (ttlMs == 0 || Active(c.stamp, ttlMs, nowMs))
  }

  /** `evict_idle_sharded_rooms`: a time-to-live of zero switches it off. */
  method EvictIdle(shards: seq<Shard>, ttlMs: nat, nowMs: nat) returns (after: seq<Shard>, count: nat)
    ensures IdleEvicted(shards, after, ttlMs, nowMs)
    ensures forall c :: Resident(after, c) <==> Resident(shards, c) && (ttlMs == 0 || nowMs <= c.stamp + ttlMs)
    ensures Total(after) + count == Total(shards)
    ensures ttlMs == 0 ==> after == shards && count == 0
  {
    after, count := shards, 0;
    if ttlMs == 0 {
      return;
    }
    for i := 0 to |shards|
      invariant |after| == |shards| && Total(after) + count == Total(shards)
      invariant forall j :: i <= j < |shards| ==> after[j] == shards[j]
      invariant forall j :: 0 <= j < i ==>
                  after[j] == (map r | r in shards[j] && Active(shards[j][r], ttlMs, nowMs) :: shards[j][r])
    {
      var kept := map r | r in shards[i] && Active(shards[i][r], ttlMs, nowMs) :: shards[i][r];
      Fewer(kept.Keys, shards[i].Keys);
      TotalAfterUpdate(after, i, kept);
      count := count + (|shards[i]| - |kept|);
      after := after[i := kept];
    }
  }

  lemma Fewer<T>(a: set<T>, b: set<T>)
    requires a <= b
    ensures |a| <= |b|
  {
    assert |b| == |a| + |b - a| by {
      assert b == a + (b - a);
    }
  }

  // ---------------------------------------------------------------- the runtime

  /** `next_access_stamp`. */
  function NextStamp(current: u64, nowMs: u64): u64 {
    var bumped := SaturatingAdd(current, 1);
    if nowMs < bumped then bumped else nowMs
  }

  /**
   A stamp is never behind the clock, and it moves on exactly until the 64-bit range is used up, clock or no clock.
   */
  lemma StampsIncreaseIffRoom(current: u64, nowMs: u64)
    ensures NextStamp(current, nowMs) >= nowMs && NextStamp(current, nowMs) >= current
    ensures NextStamp(current, nowMs) > current <==> current < U64_MAX
  {
  }

  /** It is the first stamp to do so. */
  lemma StampIsFirst(current: u64, nowMs: u64, stamp: u64)
    requires stamp >= nowMs && (stamp > current || stamp == U64_MAX)
    ensures NextStamp(current, nowMs) <= stamp
  {
  }

  function StampsFrom(current: u64, clock: seq<u64>): seq<u64>
    decreases |clock|
  {
    if clock == [] then [] else var next := NextStamp(current, clock[0]); [next] + StampsFrom(next, clock[1..])
  }

  /** Whatever the clock does, stamps handed out one after the other strictly increase below the end of the range. */
  lemma {:induction false} StampsStrictlyIncrease(current: u64, clock: seq<u64>, i: nat, j: nat)
    requires i < j < |clock|
    ensures |StampsFrom(current, clock)| == |clock|
    ensures var stamps := StampsFrom(current, clock);
            current <= stamps[i] <= stamps[j] && (stamps[i] < U64_MAX ==> stamps[i] < stamps[j])
    decreases |clock|
  {
    var next := NextStamp(current, clock[0]);
    StampCount(next, clock[1..]);
    StampsIncreaseIffRoom(current, clock[0]);
    if i > 0 {
      StampsStrictlyIncrease(next, clock[1..], i - 1, j - 1);
    } else {
      StampsPassBy(next, clock[1..], j - 1);
    }
  }

  lemma {:induction false} StampCount(current: u64, clock: seq<u64>)
    ensures |StampsFrom(current, clock)| == |clock|
    decreases |clock|
  {
    if clock != [] {
      StampCount(NextStamp(current, clock[0]), clock[1..]);
    }
  }

  lemma {:induction false} StampsPassBy(current: u64, clock: seq<u64>, j: nat)
    requires j < |clock|
    ensures |StampsFrom(current, clock)| == |clock|
    ensures current <= StampsFrom(current, clock)[j] && (current < U64_MAX ==> current < StampsFrom(current, clock)[j])
    decreases |clock|
  {
    var next := NextStamp(current, clock[0]);
    StampCount(next, clock[1..]);
    if j > 0 {
      StampsPassBy(next, clock[1..], j - 1);
    }
  }

  type ShardOf = string -> nat

  lemma OneShard(rooms: Shard)
    ensures Total([rooms]) == |rooms|
  {
    assert [rooms][..0] == [];
  }

  class HotRooms {
    const shardOf: ShardOf
    var shards: seq<Shard>
    var residentRooms: nat
    var maxHotRooms: nat
    var hotRoomIdleTtlMs: nat
    var accessSeq: u64

    /** The cached counter is right, the bound is kept, and every room is in the shard it hashes to. */
    ghost predicate Valid()
      reads this
    {
      |shards| > 0 && residentRooms == Total(shards) <= maxHotRooms && Placed(shardOf, shards)
    }

    /**
     Rooms restored from a snapshot: trimmed to the bound, then to the recently used, then dealt out to the shards.
     */
    constructor (shardOf: ShardOf, rooms: Shard, maxHotRooms: nat, hotRoomIdleTtlMs: nat, shardCount: nat, nowMs: u64)
      ensures Valid() && this.maxHotRooms == maxHotRooms && this.hotRoomIdleTtlMs == hotRoomIdleTtlMs && accessSeq == 0
      ensures exists kept: seq<Shard>, evicted: seq<Candidate> ::
                LruEvicted([rooms], kept, evicted, maxHotRooms) &&
                forall c :: Resident(shards, c) <==> Restored(shardOf, kept, c, |shards|, hotRoomIdleTtlMs, nowMs)
      ensures this.shardOf == shardOf && (|rooms| <= maxHotRooms && hotRoomIdleTtlMs == 0 ==> residentRooms == |rooms|)
    {
      this.shardOf := shardOf;
      OneShard(rooms);
      this.maxHotRooms := maxHotRooms;
      this.hotRoomIdleTtlMs := hotRoomIdleTtlMs;
      accessSeq := 0;
      var kept, evicted, _ := EvictLru([rooms], maxHotRooms);
      var active, _ := EvictIdle(kept, hotRoomIdleTtlMs, nowMs);
      assert Total(active) == |active[0]| by {
        assert active[..0] == [];
      }
      var dealt := Deal(shardOf, active[0], if shardCount == 0 then 1 else shardCount);
      shards := dealt;
      residentRooms := |active[0]|;
      new;
      forall c
        ensures Resident(shards, c) <==> Restored(shardOf, kept, c, |shards|, hotRoomIdleTtlMs, nowMs)
      {
        assert Resident(active, Candidate(0, c.room, c.stamp)) <==> c.room in active[0] && active[0][c.room] == c.stamp;
      }
    }

    method TakeStamp() returns (stamp: u64)
      modifies this`accessSeq
      ensures stamp == accessSeq >= old(accessSeq) && (old(accessSeq) < U64_MAX ==> stamp > old(accessSeq))
    {
      var nowMs: u64 := *;
      stamp := NextStamp(accessSeq, nowMs);
      accessSeq := stamp;
    }

    /** A room actor takes a turn, and is created first if it is not resident. */
    method TouchRoom(room: string) returns (created: bool)
      requires |shards| > 0
      modifies this`shards, this`accessSeq
      ensures created == !HasRoom(shardOf, old(shards), room)
      ensures Touched(shardOf, old(shards), shards, room, accessSeq)
      ensures accessSeq >= old(accessSeq) && (old(accessSeq) < U64_MAX ==> accessSeq > old(accessSeq))
      ensures created && old(accessSeq) + 2 <= U64_MAX ==> accessSeq >= old(accessSeq) + 2
    {
      var index := shardOf(room) % |shards|;
      created := room !in shards[index];
      if created {
        var _ := TakeStamp();
      }
      var stamp := TakeStamp();
      TotalAfterUpdate(shards, index, shards[index][room := stamp]);
      assert shards[index][room := stamp].Keys == shards[index].Keys + {room};
      shards := shards[index := shards[index][room := stamp]];
    }

    /** `enforce_capacity`: consults the cached counter only. */
    method EnforceCapacity() returns (ghost evicted: seq<Candidate>)
      requires |shards| > 0 && residentRooms == Total(shards) && Placed(shardOf, shards)
      modifies this`shards, this`residentRooms
      ensures Valid() && LruEvicted(old(shards), shards, evicted, maxHotRooms)
    {
      evicted := [];
      if residentRooms <= maxHotRooms {
        return;
      }
      var after, gone, count := EvictLru(shards, maxHotRooms);
      evicted := gone;
      EvictionKeepsPlaced(shardOf, shards, after);
      shards := after;
      residentRooms := SaturatingSub(residentRooms, count);
    }

    /**
     A message reaches its room; the room is gone again at once exactly if it is new, the bound is reached and all
     others are newer.
     */
    method ApplyMessage(room: string) returns (ghost touched: seq<Shard>, ghost evicted: seq<Candidate>)
      requires Valid()
      modifies this`shards, this`residentRooms, this`accessSeq
      ensures Valid() && Touched(shardOf, old(shards), touched, room, accessSeq)
      ensures LruEvicted(touched, shards, evicted, maxHotRooms)
      ensures !HasRoom(shardOf, shards, room) <==>
                !HasRoom(shardOf, old(shards), room) &&
                EvictsNewcomer(old(shards), At(shardOf, shards, room, accessSeq), maxHotRooms)
    {
      var created := TouchRoom(room);
      touched := shards;
      TouchKeepsPlaced(shardOf, old(shards), shards, room, accessSeq);
      residentRooms := residentRooms + if created then 1 else 0;
      evicted := EnforceCapacity();
      NewcomerStaysUnlessOldest(shardOf, old(shards), touched, shards, evicted, maxHotRooms, room, accessSeq);
    }

    /** A batch of messages, grouped by room; `rooms` are the groups. */
    method ApplyMessages(rooms: seq<string>) returns (ghost touched: seq<Shard>, ghost evicted: seq<Candidate>)
      requires Valid()
      modifies this`shards, this`residentRooms, this`accessSeq
      ensures Valid() && LruEvicted(touched, shards, evicted, maxHotRooms)
      ensures TouchedAll(shardOf, old(shards), touched, rooms, old(accessSeq), accessSeq)
    {
      touched, evicted := shards, [];
      if rooms == [] {
        return;
      }
      for i := 0 to |rooms|
        invariant |shards| == |old(shards)| && residentRooms == Total(shards) && Placed(shardOf, shards)
        invariant accessSeq >= old(accessSeq)
        invariant TouchedAll(shardOf, old(shards), shards, rooms[..i], old(accessSeq), accessSeq)
      {
        ghost var before, from := shards, accessSeq;
        var created := TouchRoom(rooms[i]);
        assert rooms[..i + 1] == rooms[..i] + [rooms[i]];
        TouchKeepsPlaced(shardOf, before, shards, rooms[i], accessSeq);
        TouchOneMore(shardOf, old(shards), before, shards, rooms[..i], rooms[i], old(accessSeq), from, accessSeq);
        residentRooms := residentRooms + if created then 1 else 0;
      }
      assert rooms[..|rooms|] == rooms;
      touched := shards;
      evicted := EnforceCapacity();
    }

    method RunActorTurn(room: string) returns (ghost touched: seq<Shard>, ghost evicted: seq<Candidate>)
      requires Valid()
      modifies this`shards, this`residentRooms, this`accessSeq
      ensures Valid() && Touched(shardOf, old(shards), touched, room, accessSeq)
      ensures LruEvicted(touched, shards, evicted, maxHotRooms)
    {
      var created := TouchRoom(room);
      touched, evicted := shards, [];
      TouchKeepsPlaced(shardOf, old(shards), shards, room, accessSeq);
      if created {
        residentRooms := residentRooms + 1;
        evicted := EnforceCapacity();
      }
    }

    method EvictRoom(room: string) returns (evicted: bool)
      requires Valid()
      modifies this`shards, this`residentRooms
      ensures Valid() && evicted == HasRoom(shardOf, old(shards), room)
      ensures forall c :: Resident(shards, c) <==> Resident(old(shards), c) && c.room != room
    {
      var index := shardOf(room) % |shards|;
      evicted := room in shards[index];
      if evicted {
        TotalAfterUpdate(shards, index, shards[index] - {room});
        assert (shards[index] - {room}).Keys == shards[index].Keys - {room};
        shards := shards[index := shards[index] - {room}];
        residentRooms := SaturatingSub(residentRooms, 1);
      }
      forall c
        ensures Resident(shards, c) <==> Resident(old(shards), c) && c.room != room
      {
        assert Resident(old(shards), c) ==> c.shard == shardOf(c.room) % |shards|;
      }
    }

    method EvictIdleRooms() returns (nowMs: u64)
      requires Valid()
      modifies this`shards, this`residentRooms
      ensures Valid() && IdleEvicted(old(shards), shards, hotRoomIdleTtlMs, nowMs)
    {
      nowMs := *;
      if hotRoomIdleTtlMs == 0 {
        return;
      }
      var after, count := EvictIdle(shards, hotRoomIdleTtlMs, nowMs);
      EvictionKeepsPlaced(shardOf, shards, after);
      shards := after;
      residentRooms := SaturatingSub(residentRooms, count);
    }

    /** New limits take effect at once: first the bound, then the time-to-live. */
    method Reconfigure(maxHotRooms: nat, hotRoomIdleTtlMs: nat)
      returns (nowMs: u64, ghost trimmed: seq<Shard>, ghost evicted: seq<Candidate>)
      requires Valid()
      modifies this`shards, this`residentRooms, this`maxHotRooms, this`hotRoomIdleTtlMs
      ensures Valid() && this.maxHotRooms == maxHotRooms && this.hotRoomIdleTtlMs == hotRoomIdleTtlMs
      ensures LruEvicted(old(shards), trimmed, evicted, maxHotRooms)
      ensures IdleEvicted(trimmed, shards, hotRoomIdleTtlMs, nowMs)
    {
      this.maxHotRooms := maxHotRooms;
      this.hotRoomIdleTtlMs := hotRoomIdleTtlMs;
      nowMs := *;
      var lru, gone, lruCount := EvictLru(shards, maxHotRooms);
      trimmed, evicted := lru, gone;
      var after, idleCount := EvictIdle(lru, hotRoomIdleTtlMs, nowMs);
      EvictionKeepsPlaced(shardOf, shards, lru);
      EvictionKeepsPlaced(shardOf, lru, after);
      shards := after;
      residentRooms := SaturatingSub(residentRooms, lruCount + idleCount);
    }
  }

  /** A restored room: kept by the bound, not idle for too long, and in the shard it hashes to. */
  ghost predicate Restored(shardOf: ShardOf, kept: seq<Shard>, c: Candidate, shardCount: nat, ttlMs: nat, nowMs: nat) {
    shardCount > 0 && c.shard == shardOf(c.room) % shardCount && Resident(kept, Candidate(0, c.room, c.stamp)) &&
    (ttlMs == 0 || Active(c.stamp, ttlMs, nowMs))
  }

  ghost predicate Placed(shardOf: ShardOf, shards: seq<Shard>) {
    |shards| > 0 && forall c :: Resident(shards, c) ==> c.shard == shardOf(c.room) % |shards|
  }

  predicate HasRoom(shardOf: ShardOf, shards: seq<Shard>, room: string)
    requires |shards| > 0
  {
    room in shards[shardOf(room) % |shards|]
  }

  function At(shardOf: ShardOf, shards: seq<Shard>, room: string, stamp: u64): Candidate
    requires |shards| > 0
  {
    Candidate(shardOf(room) % |shards|, room, stamp)
  }

  /** `room` is resident with the given stamp, all else is as before. */
  ghost predicate Touched(shardOf: ShardOf, before: seq<Shard>, after: seq<Shard>, room: string, stamp: u64)
    requires |before| > 0
  {
    var index := shardOf(room) % |before|;
    var shard: Shard := before[index][room := stamp];
    after == before[index := shard] && Total(after) == Total(before) + (if room in before[index] then 0 else 1)
  }

  lemma TouchKeepsPlaced(shardOf: ShardOf, before: seq<Shard>, after: seq<Shard>, room: string, stamp: u64)
    requires Placed(shardOf, before) && Touched(shardOf, before, after, room, stamp)
    ensures Placed(shardOf, after)
    ensures forall r :: HasRoom(shardOf, after, r) <==> HasRoom(shardOf, before, r) || r == room
    ensures forall c :: Resident(after, c) <==>
              c == At(shardOf, before, room, stamp) || (Resident(before, c) && c.room != room)
  {
    forall c
      ensures Resident(after, c) <==> c == At(shardOf, before, room, stamp) || (Resident(before, c) && c.room != room)
    {
      assert Resident(before, c) ==> c.shard == shardOf(c.room) % |before|;
    }
  }

  /** The rooms touched are resident with stamps newer than `from`, all others are as before. */
  ghost predicate TouchedAll(shardOf: ShardOf, before: seq<Shard>, after: seq<Shard>, rooms: seq<string>, from: u64,
                             to: u64)
    requires |before| > 0
  {
    |after| == |before| &&
    (forall r :: HasRoom(shardOf, after, r) <==> HasRoom(shardOf, before, r) || r in rooms) &&
    (forall c :: Resident(after, c) && c.room in rooms ==> from < U64_MAX ==> from < c.stamp <= to) &&
    (forall c: Candidate {:trigger Resident(after, c)} {:trigger Resident(before, c)} :: c.room !in rooms ==>
       (Resident(after, c) <==> Resident(before, c)))
  }

  lemma TouchOneMore(shardOf: ShardOf, start: seq<Shard>, before: seq<Shard>, after: seq<Shard>, rooms: seq<string>,
                     room: string, from: u64, last: u64, stamp: u64)
    requires Placed(shardOf, before) && |start| > 0 && TouchedAll(shardOf, start, before, rooms, from, last)
    requires Touched(shardOf, before, after, room, stamp)
    requires from <= last <= stamp && (last < U64_MAX ==> last < stamp)
    ensures TouchedAll(shardOf, start, after, rooms + [room], from, stamp)
  {
    TouchKeepsPlaced(shardOf, before, after, room, stamp);
    forall c: Candidate | c.room !in rooms + [room]
      ensures Resident(after, c) <==> Resident(start, c)
    {
      assert c.room !in rooms && c.room != room;
    }
  }

  lemma EvictionKeepsPlaced(shardOf: ShardOf, before: seq<Shard>, after: seq<Shard>)
    requires Placed(shardOf, before) && |after| == |before|
    requires forall c :: Resident(after, c) ==> Resident(before, c)
    ensures Placed(shardOf, after)
  {
  }

  lemma NewcomerStaysUnlessOldest(shardOf: ShardOf, before: seq<Shard>, touched: seq<Shard>, after: seq<Shard>,
                                  evicted: seq<Candidate>, maxHotRooms: nat, room: string, stamp: u64)
    requires Placed(shardOf, before) && Touched(shardOf, before, touched, room, stamp)
    requires Total(before) <= maxHotRooms && LruEvicted(touched, after, evicted, maxHotRooms)
    ensures !HasRoom(shardOf, after, room) <==>
              !HasRoom(shardOf, before, room) && EvictsNewcomer(before, At(shardOf, before, room, stamp), maxHotRooms)
  {
    var self := At(shardOf, before, room, stamp);
    TouchKeepsPlaced(shardOf, before, touched, room, stamp);
    NewcomerIsEvictedIffOldest(touched, after, evicted, maxHotRooms, self);
    assert HasRoom(shardOf, after, room) <==> Resident(after, self) by {
      if HasRoom(shardOf, after, room) {
        var c := Candidate(self.shard, room, after[self.shard][room]);
        assert Resident(after, c) && Resident(touched, c);
      }
    }
    if !HasRoom(shardOf, before, room) {
      assert forall c :: Resident(before, c) ==> Resident(touched, c) && c.room != room;
    }
  }

  /** Each room goes to the shard it hashes to. */
  method Deal(shardOf: ShardOf, rooms: Shard, shardCount: nat) returns (shards: seq<Shard>)
    requires shardCount > 0
    ensures |shards| == shardCount && Placed(shardOf, shards) && Total(shards) == |rooms|
    ensures forall c :: Resident(shards, c) <==>
                          c.shard == shardOf(c.room) % shardCount && c.room in rooms && rooms[c.room] == c.stamp
  {
    shards := seq(shardCount, i => map[]);
    NoRooms(shards);
    var rest := rooms.Keys;
    while rest != {}
      invariant rest <= rooms.Keys && |shards| == shardCount && Placed(shardOf, shards)
      invariant Total(shards) + |rest| == |rooms|
      invariant forall c :: Resident(shards, c) <==>
                              c.shard == shardOf(c.room) % shardCount && c.room in rooms && rooms[c.room] == c.stamp &&
                              c.room !in rest
      decreases |rest|
    {
      var room :| room in rest;
      var index := shardOf(room) % shardCount;
      ghost var before := shards;
      assert room !in shards[index] by {
        if room in shards[index] {
          assert Resident(shards, Candidate(index, room, shards[index][room]));
        }
      }
      TotalAfterUpdate(shards, index, shards[index][room := rooms[room]]);
      assert shards[index][room := rooms[room]].Keys == shards[index].Keys + {room};
      shards := shards[index := shards[index][room := rooms[room]]];
      TouchKeepsPlaced(shardOf, before, shards, room, rooms[room]);
      rest := rest - {room};
    }
  }

  /** Rooms restored up to the bound are those there were. */
  lemma RestoredInFull(shardOf: ShardOf, rooms: Shard, kept: seq<Shard>, evicted: seq<Candidate>, maxHotRooms: nat,
                       count: nat, nowMs: u64, c: Candidate)
    requires count > 0 && LruEvicted([rooms], kept, evicted, maxHotRooms) && |rooms| <= maxHotRooms
    ensures Restored(shardOf, kept, c, count, 0, nowMs) <==>
              c.shard == shardOf(c.room) % count && c.room in rooms && rooms[c.room] == c.stamp
  {
    OneShard(rooms);
    var kind := Candidate(0, c.room, c.stamp);
    assert Resident(kept, kind) <==> Resident([rooms], kind) && kind !in evicted;
  }

  /**
   A full runtime is restored and a message comes for another room, which goes at once exactly if all restored stamps
   are ahead.
   */
  method NewcomerAfterRestore(shardOf: ShardOf, rooms: Shard, room: string, shardCount: nat, nowMs: u64)
    returns (runtime: HotRooms)
    requires room !in rooms
    ensures runtime.Valid() && runtime.shardOf == shardOf
    ensures !HasRoom(shardOf, runtime.shards, room) <==>
              forall r :: r in rooms ==>
                runtime.accessSeq < rooms[r] || (runtime.accessSeq == rooms[r] && Less(room, r))
  {
    runtime := new HotRooms(shardOf, rooms, |rooms|, 0, shardCount, nowMs);
    ghost var before := runtime.shards;
    ghost var kept, evicted :| LruEvicted([rooms], kept, evicted, |rooms|) &&
      forall c :: Resident(before, c) <==> Restored(shardOf, kept, c, |before|, 0, nowMs);
    forall c
      ensures Resident(before, c) <==>
                c.shard == shardOf(c.room) % |before| && c.room in rooms && rooms[c.room] == c.stamp
    {
      RestoredInFull(shardOf, rooms, kept, evicted, |rooms|, |before|, nowMs, c);
    }

    ghost var touched, gone;
    touched, gone := runtime.ApplyMessage(room);
    OldestIfAllAhead(shardOf, rooms, before, room, runtime.accessSeq);
  }

  lemma ResidentIsRestored(shardOf: ShardOf, rooms: Shard, before: seq<Shard>, room: string)
    requires |before| > 0
    requires forall c :: Resident(before, c) <==>
               c.shard == shardOf(c.room) % |before| && c.room in rooms && rooms[c.room] == c.stamp
    ensures HasRoom(shardOf, before, room) ==> room in rooms
  {
    var index := shardOf(room) % |before|;
    if HasRoom(shardOf, before, room) {
      assert Resident(before, Candidate(index, room, before[index][room]));
    }
  }

  lemma OldestIfAllAhead(shardOf: ShardOf, rooms: Shard, before: seq<Shard>, room: string, stamp: u64)
    requires |before| > 0 && Total(before) == |rooms| && room !in rooms
    requires forall c :: Resident(before, c) <==>
               c.shard == shardOf(c.room) % |before| && c.room in rooms && rooms[c.room] == c.stamp
    ensures !HasRoom(shardOf, before, room)
    ensures EvictsNewcomer(before, At(shardOf, before, room, stamp), |rooms|) <==>
              forall r :: r in rooms ==> stamp < rooms[r] || (stamp == rooms[r] && Less(room, r))
  {
    var self := At(shardOf, before, room, stamp);
    ResidentIsRestored(shardOf, rooms, before, room);
    if EvictsNewcomer(before, self, |rooms|) {
      forall r | r in rooms
        ensures stamp < rooms[r] || (stamp == rooms[r] && Less(room, r))
      {
        assert Resident(before, Candidate(shardOf(r) % |before|, r, rooms[r]));
      }
    }
  }

  /** Whatever the clock says: a room restored with the last stamp there is outlives any newcomer of a smaller id. */
  method RestoredStampsCanBeAhead() returns (runtime: HotRooms)
    ensures runtime.Valid() && !HasRoom(runtime.shardOf, runtime.shards, "a")
  {
    var rooms: Shard := map["b" := U64_MAX];
    var nowMs: u64 := *;
    runtime := NewcomerAfterRestore(r => 0, rooms, "a", 1, nowMs);
    assert Less("a", "b");
  }
}

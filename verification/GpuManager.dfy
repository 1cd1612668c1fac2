/**
  backend/core/gpu_manager.py: admission control for GPU memory.

  `GpuState` is the state guarded by the manager's lock; each function below is one locked
  region.  The class `GPUManager` updates that state in place and is proved equal to them.
 */
module GpuManager {
  import opened Wrappers
  import opened StableSort

  datatype ModelSlot = ModelSlot(
    modelId: string, loraId: Option<string>, vramMb: int, loadedAt: int, lastUsedAt: int)

  /** One item of the dict of loaded models, which iterates in insertion order. */
  datatype Entry = Entry(key: string, slot: ModelSlot)

  datatype InferenceSlot = InferenceSlot(modelId: string, loraId: Option<string>, vramMb: int)

  /** `MustWait` is the fall-through to the wait loop, the only source of a timeout. */
  datatype Outcome = Granted(slot: InferenceSlot) | ExceedsTotal | MustWait

  datatype GpuState = GpuState(totalMb: int, loaded: seq<Entry>, allocatedMb: int, waiters: nat)

  /** What one call did: the new state, its outcome, and the entries it evicted, in order. */
  datatype Effect = Effect(state: GpuState, outcome: Outcome, evicted: seq<Entry>)

  function Adapter(loraId: Option<string>): string {
    if loraId.Some? && loraId.value != "" then loraId.value else "_"
  }

  function KeyOf(modelId: string, loraId: Option<string>): string {
    modelId + ":" + Adapter(loraId)
  }

  function Max0(n: int): int { if n < 0 then 0 else n }

  function LastUsed(e: Entry): Rank { (e.slot.lastUsedAt, 0) }

  function LruOrder(loaded: seq<Entry>): seq<Entry> { Sort(loaded, LastUsed) }

  function Keys(entries: seq<Entry>): (keys: set<string>) {
    set e | e in entries :: e.key
  }

  function Footprint(entries: seq<Entry>): int {
    if entries == [] then 0 else entries[0].slot.vramMb + Footprint(entries[1..])
  }

  predicate CanFit(s: GpuState, mb: int) {
    s.allocatedMb + mb <= s.totalMb
  }

  /** Position of the entry with this key, or the length when there is none. */
  function FindKey(loaded: seq<Entry>, key: string): (i: nat)
    ensures i <= |loaded|
    ensures i < |loaded| ==> loaded[i].key == key
    ensures forall j :: 0 <= j < i ==> loaded[j].key != key
  {
    if loaded == [] || loaded[0].key == key then 0 else 1 + FindKey(loaded[1..], key)
  }

  predicate SharesBase(e: Entry, modelId: string, key: string) {
    modelId + ":" <= e.key && e.key != key
  }

  /** Position of the first entry whose key starts with the model id and a colon. */
  function FindBase(loaded: seq<Entry>, modelId: string, key: string): (i: nat)
    ensures i <= |loaded|
    ensures i < |loaded| ==> SharesBase(loaded[i], modelId, key)
    ensures forall j :: 0 <= j < i ==> !SharesBase(loaded[j], modelId, key)
  {
    if loaded == [] || SharesBase(loaded[0], modelId, key) then 0
    else 1 + FindBase(loaded[1..], modelId, key)
  }

  function Without(loaded: seq<Entry>, keys: set<string>): seq<Entry> {
    if loaded == [] then []
    else (if loaded[0].key in keys then [] else [loaded[0]]) + Without(loaded[1..], keys)
  }

  /** The counter after subtracting each footprint in turn, never below zero. */
  function Drain(allocatedMb: int, victims: seq<Entry>): int
    decreases victims
  {
    if victims == [] then allocatedMb
    else Drain(Max0(allocatedMb - victims[0].slot.vramMb), victims[1..])
  }

  /** How many of `order` the eviction loop takes before the request fits. */
  function EvictCount(totalMb: int, allocatedMb: int, order: seq<Entry>, neededMb: int): (n: nat)
    ensures n <= |order|
    decreases order
  {
    if order == [] || allocatedMb + neededMb <= totalMb then 0
    else 1 + EvictCount(totalMb, Max0(allocatedMb - order[0].slot.vramMb), order[1..], neededMb)
  }

  function Victims(s: GpuState, neededMb: int): seq<Entry> {
    var order := LruOrder(s.loaded);
    order[..EvictCount(s.totalMb, s.allocatedMb, order, neededMb)]
  }

  function EvictLru(s: GpuState, neededMb: int): GpuState {
    var victims := Victims(s, neededMb);
    s.(loaded := Without(s.loaded, Keys(victims)), allocatedMb := Drain(s.allocatedMb, victims))
  }

  function AllocateNew(s: GpuState, modelId: string, loraId: Option<string>, mb: int, now: int): GpuState {
    s.(loaded := s.loaded + [Entry(KeyOf(modelId, loraId), ModelSlot(modelId, loraId, mb, now, now))],
       allocatedMb := s.allocatedMb + mb)
  }

  function Touch(loaded: seq<Entry>, i: nat, now: int): seq<Entry>
    requires i < |loaded|
  {
    loaded[i := Entry(loaded[i].key, loaded[i].slot.(lastUsedAt := now))]
  }

  /** Deleting a dict key and inserting another one moves the slot to the end. */
  function Rekey(loaded: seq<Entry>, i: nat, key: string, loraId: Option<string>, now: int): seq<Entry>
    requires i < |loaded|
  {
    loaded[..i] + loaded[i + 1..] + [Entry(key, loaded[i].slot.(loraId := loraId, lastUsedAt := now))]
  }

  predicate Reuses(s: GpuState, modelId: string, loraId: Option<string>) {
    var key := KeyOf(modelId, loraId);
    FindKey(s.loaded, key) < |s.loaded| || FindBase(s.loaded, modelId, key) < |s.loaded|
  }

  /** One pass of the acquire loop. */
  function Acquire(s: GpuState, modelId: string, loraId: Option<string>, mb: int, now: int): Effect {
    var key := KeyOf(modelId, loraId);
    var i := FindKey(s.loaded, key);
    var j := FindBase(s.loaded, modelId, key);
    var shared := Granted(InferenceSlot(modelId, loraId, 0));
    var granted := Granted(InferenceSlot(modelId, loraId, mb));
    if mb > s.totalMb then Effect(s, ExceedsTotal, [])
    else if i < |s.loaded| then Effect(s.(loaded := Touch(s.loaded, i, now)), shared, [])
    else if j < |s.loaded| then Effect(s.(loaded := Rekey(s.loaded, j, key, loraId, now)), shared, [])
    else if CanFit(s, mb) then Effect(AllocateNew(s, modelId, loraId, mb, now), granted, [])
    else
      var t := EvictLru(s, mb);
      if CanFit(t, mb) then Effect(AllocateNew(t, modelId, loraId, mb, now), granted, Victims(s, mb))
      else Effect(t.(waiters := t.waiters + 1), MustWait, Victims(s, mb))
  }

  /** Any slot may be passed, also one released before. */
  function Release(s: GpuState, slot: InferenceSlot): GpuState {
    s.(allocatedMb := if slot.vramMb > 0 then Max0(s.allocatedMb - slot.vramMb) else s.allocatedMb,
       waiters := 0)
  }

  // ---------------------------------------------------------------- the class

  class GPUManager {
    const vramTotalMb: int
    var loadedModels: seq<Entry>
    var vramAllocatedMb: int
    var waiters: nat

    ghost function State(): GpuState
      reads this
    {
      GpuState(vramTotalMb, loadedModels, vramAllocatedMb, waiters)
    }

    constructor (vramTotalMb: int)
      ensures State() == GpuState(vramTotalMb, [], 0, 0)
    {
      this.vramTotalMb := vramTotalMb;
      loadedModels, vramAllocatedMb, waiters := [], 0, 0;
    }

    predicate FitsNow(mb: int)
      reads this
    {
      vramAllocatedMb + mb <= vramTotalMb
    }

    method AcquirePass(modelId: string, loraId: Option<string>, mb: int, now: int) returns (outcome: Outcome)
      modifies this
      ensures State() == Acquire(old(State()), modelId, loraId, mb, now).state
      ensures outcome == Acquire(old(State()), modelId, loraId, mb, now).outcome
      ensures outcome.Granted? ==>
                outcome.slot == InferenceSlot(modelId, loraId, if Reuses(old(State()), modelId, loraId) then 0 else mb)
    {
      if mb > vramTotalMb {
        return ExceedsTotal;
      }
      var key := KeyOf(modelId, loraId);
      var i := FindKey(loadedModels, key);
      if i < |loadedModels| {
        loadedModels := Touch(loadedModels, i, now);
        return Granted(InferenceSlot(modelId, loraId, 0));
      }
      var j := 0;
      while j < |loadedModels|
        invariant 0 <= j <= |loadedModels|
        invariant State() == old(State())
        invariant forall k :: 0 <= k < j ==> !SharesBase(loadedModels[k], modelId, key)
      {
        if SharesBase(loadedModels[j], modelId, key) {
          assert j == FindBase(loadedModels, modelId, key);
          loadedModels := Rekey(loadedModels, j, key, loraId, now);
          return Granted(InferenceSlot(modelId, loraId, 0));
        }
        j := j + 1;
      }
      if FitsNow(mb) {
        outcome := RegisterNew(modelId, loraId, mb, now);
        return;
      }
      var evicted := EvictLocked(mb);
      if evicted && FitsNow(mb) {
        outcome := RegisterNew(modelId, loraId, mb, now);
        return;
      }
      waiters := waiters + 1;
      outcome := MustWait;
    }

    /** The whole call: the first pass decides, and the wait loop behind it is dead code. */
    method AcquireSlot(modelId: string, loraId: Option<string>, mb: int, now: int) returns (outcome: Outcome)
      requires Inv(State())
      modifies this
      ensures outcome.Granted? <==> mb <= vramTotalMb
      ensures outcome.ExceedsTotal? <==> mb > vramTotalMb
      ensures State() == Acquire(old(State()), modelId, loraId, mb, now).state && waiters == 0
    {
      AcquireSucceedsAtOnce(State(), modelId, loraId, mb, now);
      outcome := AcquirePass(modelId, loraId, mb, now);
      if outcome.MustWait? {
        assert false;
      }
    }

    method RegisterNew(modelId: string, loraId: Option<string>, mb: int, now: int) returns (outcome: Outcome)
      modifies this
      ensures State() == AllocateNew(old(State()), modelId, loraId, mb, now)
      ensures outcome == Granted(InferenceSlot(modelId, loraId, mb))
    {
      loadedModels := loadedModels + [Entry(KeyOf(modelId, loraId), ModelSlot(modelId, loraId, mb, now, now))];
      vramAllocatedMb := vramAllocatedMb + mb;
      outcome := Granted(InferenceSlot(modelId, loraId, mb));
    }

    method EvictLocked(neededMb: int) returns (fits: bool)
      modifies this
      ensures State() == EvictLru(old(State()), neededMb)
      ensures fits == CanFit(State(), neededMb)
    {
      var candidates := LruOrder(loadedModels);
      ghost var count := EvictCount(vramTotalMb, vramAllocatedMb, candidates, neededMb);
      var n := 0;
      var evictedKeys: set<string> := {};
      while n < |candidates| && !FitsNow(neededMb)
        invariant 0 <= n <= |candidates|
        invariant loadedModels == old(loadedModels) && waiters == old(waiters)
        invariant count == n + EvictCount(vramTotalMb, vramAllocatedMb, candidates[n..], neededMb)
        invariant Drain(old(vramAllocatedMb), candidates[..count]) == Drain(vramAllocatedMb, candidates[n..count])
        invariant evictedKeys == Keys(candidates[..n])
      {
        EvictOneMore(vramTotalMb, vramAllocatedMb, candidates, n, count, neededMb);
        KeysOfNext(candidates, n);
        evictedKeys := evictedKeys + {candidates[n].key};
        vramAllocatedMb := Max0(vramAllocatedMb - candidates[n].slot.vramMb);
        n := n + 1;
      }
      assert count == n;
      loadedModels := Without(loadedModels, evictedKeys);
      fits := FitsNow(neededMb);
    }

    method ReleaseSlot(slot: InferenceSlot)
      modifies this
      ensures State() == Release(old(State()), slot)
    {
      if slot.vramMb > 0 {
        vramAllocatedMb := Max0(vramAllocatedMb - slot.vramMb);
      }
      waiters := 0;
    }
  }

  lemma KeysOfNext(order: seq<Entry>, n: nat)
    requires n < |order|
    ensures Keys(order[..n + 1]) == Keys(order[..n]) + {order[n].key}
  {
    assert order[..n + 1] == order[..n] + [order[n]];
  }

  /** One turn of the eviction loop. */
  lemma EvictOneMore(totalMb: int, allocatedMb: int, order: seq<Entry>, n: nat, count: nat, neededMb: int)
    requires n < |order| && allocatedMb + neededMb > totalMb
    requires count == n + EvictCount(totalMb, allocatedMb, order[n..], neededMb)
    ensures n < count <= |order|
    ensures var rest := Max0(allocatedMb - order[n].slot.vramMb);
            && count == n + 1 + EvictCount(totalMb, rest, order[n + 1..], neededMb)
            && Drain(allocatedMb, order[n..count]) == Drain(rest, order[n + 1..count])
  {
    assert order[n..][1..] == order[n + 1..];
    assert order[n..count][1..] == order[n + 1..count];
  }

  // ------------------------------------------------------------ what is kept

  ghost predicate DistinctKeys(loaded: seq<Entry>) {
    forall i, j :: 0 <= i < j < |loaded| ==> loaded[i].key != loaded[j].key
  }

  ghost predicate NonNegative(entries: seq<Entry>) {
    forall e :: e in entries ==> e.slot.vramMb >= 0
  }

  /** What every reachable state satisfies: the counter is covered by loaded models. */
  ghost predicate Inv(s: GpuState) {
    && 0 <= s.allocatedMb <= s.totalMb
    && s.allocatedMb <= Footprint(s.loaded)
    && NonNegative(s.loaded)
    && DistinctKeys(s.loaded)
    && s.waiters == 0
  }

  lemma {:induction false} FootprintOfConcat(a: seq<Entry>, b: seq<Entry>)
    ensures Footprint(a + b) == Footprint(a) + Footprint(b)
  {
    if a == [] {
      assert a + b == b;
    } else {
      assert (a + b)[1..] == a[1..] + b;
      FootprintOfConcat(a[1..], b);
    }
  }

  lemma {:induction false} FootprintNonNegative(entries: seq<Entry>)
    requires NonNegative(entries)
    ensures Footprint(entries) >= 0
  {
    if entries != [] {
      FootprintNonNegative(entries[1..]);
    }
  }

  lemma FootprintWithoutOne(entries: seq<Entry>, i: nat)
    requires i < |entries|
    ensures Footprint(entries) == entries[i].slot.vramMb + Footprint(entries[..i] + entries[i + 1..])
  {
    var before, one, after := entries[..i], [entries[i]], entries[i + 1..];
    assert entries == before + (one + after);
    FootprintOfConcat(before, one + after);
    FootprintOfConcat(one, after);
    FootprintOfConcat(before, after);
    assert Footprint(one) == entries[i].slot.vramMb by { assert one[1..] == []; }
  }

  lemma DropFromBoth(a: seq<Entry>, b: seq<Entry>, i: nat)
    requires multiset(a) == multiset(b) && a != [] && i < |b| && b[i] == a[0]
    ensures multiset(a[1..]) == multiset(b[..i] + b[i + 1..])
  {
    assert a == [a[0]] + a[1..];
    assert b == b[..i] + [b[i]] + b[i + 1..];
    assert multiset(a[1..]) == multiset(a) - multiset{a[0]};
    assert multiset(b[..i] + b[i + 1..]) == multiset(b) - multiset{a[0]};
  }

  /** The footprint does not depend on the order of the entries. */
  lemma {:induction false} FootprintOfPermutation(a: seq<Entry>, b: seq<Entry>)
    requires multiset(a) == multiset(b)
    ensures Footprint(a) == Footprint(b)
  {
    SameMembers(a, b);
    if a != [] {
      assert a[0] in b;
      var i :| 0 <= i < |b| && b[i] == a[0];
      DropFromBoth(a, b, i);
      FootprintOfPermutation(a[1..], b[..i] + b[i + 1..]);
      FootprintWithoutOne(b, i);
    }
  }

  lemma {:induction false} WithoutCounts(entries: seq<Entry>, keys: set<string>, e: Entry)
    ensures multiset(Without(entries, keys))[e] == if e.key in keys then 0 else multiset(entries)[e]
    ensures e in Without(entries, keys) ==> e in entries && e.key !in keys
  {
    if entries != [] {
      assert entries == [entries[0]] + entries[1..];
      WithoutCounts(entries[1..], keys, e);
    }
  }

  lemma {:induction false} WithoutNone(b: seq<Entry>, keys: set<string>)
    requires forall e :: e in b ==> e.key !in keys
    ensures Without(b, keys) == b
  {
    if b != [] {
      WithoutNone(b[1..], keys);
      assert [b[0]] + b[1..] == b;
    }
  }

  lemma {:induction false} WithoutSplit(a: seq<Entry>, b: seq<Entry>, keys: set<string>)
    requires forall e :: e in a ==> e.key in keys
    requires forall e :: e in b ==> e.key !in keys
    ensures Without(a + b, keys) == b
  {
    if a == [] {
      assert a + b == b;
      WithoutNone(b, keys);
    } else {
      var rest := a[1..] + b;
      assert (a + b)[1..] == rest && (a + b)[0] == a[0];
      WithoutSplit(a[1..], b, keys);
      assert [] + Without(rest, keys) == Without(rest, keys);
    }
  }

  lemma {:induction false} WithoutKeepsDistinct(loaded: seq<Entry>, keys: set<string>)
    requires DistinctKeys(loaded)
    ensures DistinctKeys(Without(loaded, keys))
  {
    if loaded != [] {
      WithoutKeepsDistinct(loaded[1..], keys);
      var rest := Without(loaded[1..], keys);
      forall e | e in rest ensures e.key != loaded[0].key {
        WithoutCounts(loaded[1..], keys, e);
      }
    }
  }

  lemma DistinctAfterSorting(loaded: seq<Entry>)
    requires DistinctKeys(loaded)
    ensures DistinctKeys(LruOrder(loaded))
  {
    var order := LruOrder(loaded);
    Permutes(loaded, LastUsed);
    forall i, j | 0 <= i < j < |order| ensures order[i].key != order[j].key {
      if order[i].key == order[j].key {
        assert order[i] in loaded && order[j] in loaded;
        assert order[i] == order[j];
        TwiceInMultiset(order, i, j);
        assert multiset(loaded)[order[i]] >= 2;
        OnceWhenDistinct(loaded, order[i]);
      }
    }
  }

  lemma TwiceInMultiset<T>(xs: seq<T>, i: nat, j: nat)
    requires i < j < |xs| && xs[i] == xs[j]
    ensures multiset(xs)[xs[i]] >= 2
  {
    assert xs == xs[..i + 1] + xs[i + 1..];
    assert xs[i] in multiset(xs[..i + 1]) by { assert xs[..i + 1][i] == xs[i]; }
    assert xs[j] in multiset(xs[i + 1..]) by { assert xs[i + 1..][j - i - 1] == xs[j]; }
  }

  lemma {:induction false} OnceWhenDistinct(loaded: seq<Entry>, e: Entry)
    requires DistinctKeys(loaded)
    ensures multiset(loaded)[e] <= 1
  {
    if loaded != [] {
      assert loaded == [loaded[0]] + loaded[1..];
      OnceWhenDistinct(loaded[1..], e);
    }
  }

  /** A kept entry stands behind every victim in the LRU order. */
  lemma KeptIsInTail(s: GpuState, neededMb: int, e: Entry) returns (j: nat)
    requires e in EvictLru(s, neededMb).loaded
    ensures |Victims(s, neededMb)| <= j < |LruOrder(s.loaded)| && LruOrder(s.loaded)[j] == e
    ensures e in s.loaded
  {
    var order := LruOrder(s.loaded);
    var victims := Victims(s, neededMb);
    WithoutCounts(s.loaded, Keys(victims), e);
    Permutes(s.loaded, LastUsed);
    j :| 0 <= j < |order| && order[j] == e;
    assert forall i :: 0 <= i < |victims| ==> victims[i].key in Keys(victims) && victims[i] == order[i];
  }

  lemma {:induction false} WithoutCountsAlike(a: seq<Entry>, b: seq<Entry>, keys: set<string>)
    requires multiset(a) == multiset(b)
    ensures multiset(Without(a, keys)) == multiset(Without(b, keys))
  {
    forall e ensures multiset(Without(a, keys))[e] == multiset(Without(b, keys))[e] {
      WithoutCounts(a, keys, e);
      WithoutCounts(b, keys, e);
    }
  }

  lemma HeadThenWithout(a: seq<Entry>, b: seq<Entry>)
    requires DistinctKeys(a + b)
    ensures Without(a + b, Keys(a)) == b
  {
    forall e, d | e in b && d in a ensures e.key != d.key {
      var i :| 0 <= i < |a| && a[i] == d;
      var j :| 0 <= j < |b| && b[j] == e;
      assert (a + b)[i] == d && (a + b)[|a| + j] == e;
    }
    WithoutSplit(a, b, Keys(a));
  }

  lemma TakeThenWithout(order: seq<Entry>, n: nat)
    requires n <= |order| && DistinctKeys(order)
    ensures Without(order, Keys(order[..n])) == order[n..]
  {
    assert order[..n] + order[n..] == order;
    HeadThenWithout(order[..n], order[n..]);
  }

  /** Evicting leaves exactly the tail of the LRU order, up to order in the dict. */
  lemma EvictionLeavesTail(s: GpuState, neededMb: int)
    requires DistinctKeys(s.loaded)
    ensures var order := LruOrder(s.loaded);
            multiset(EvictLru(s, neededMb).loaded) == multiset(order[|Victims(s, neededMb)|..])
  {
    var order := LruOrder(s.loaded);
    var victims := Victims(s, neededMb);
    DistinctAfterSorting(s.loaded);
    Permutes(s.loaded, LastUsed);
    TakeThenWithout(order, |victims|);
    WithoutCountsAlike(s.loaded, order, Keys(victims));
  }

  /** With non-negative footprints the repeated saturating subtraction is a single one. */
  lemma {:induction false} DrainIsOneSubtraction(allocatedMb: int, victims: seq<Entry>)
    requires allocatedMb >= 0 && NonNegative(victims)
    ensures Drain(allocatedMb, victims) == Max0(allocatedMb - Footprint(victims))
  {
    if victims != [] {
      DrainIsOneSubtraction(Max0(allocatedMb - victims[0].slot.vramMb), victims[1..]);
      FootprintNonNegative(victims[1..]);
    }
  }

  /** The loop stops at the first prefix that makes room, or after everything. */
  lemma {:induction false} EvictCountIsLeast(totalMb: int, allocatedMb: int, order: seq<Entry>, neededMb: int)
    ensures var n := EvictCount(totalMb, allocatedMb, order, neededMb);
            && (n == |order| || Drain(allocatedMb, order[..n]) + neededMb <= totalMb)
            && forall k :: 0 <= k < n ==> Drain(allocatedMb, order[..k]) + neededMb > totalMb
    decreases order
  {
    var n := EvictCount(totalMb, allocatedMb, order, neededMb);
    if n > 0 {
      var rest := Max0(allocatedMb - order[0].slot.vramMb);
      EvictCountIsLeast(totalMb, rest, order[1..], neededMb);
      forall k | 0 < k <= n
        ensures Drain(allocatedMb, order[..k]) == Drain(rest, order[1..][..k - 1])
      {
        assert order[..k][1..] == order[1..][..k - 1];
      }
    }
  }

  /** The victims are the head of the least-recently-used order, the kept models the rest. */
  lemma VictimsAreLeastRecentlyUsed(s: GpuState, neededMb: int)
    requires DistinctKeys(s.loaded)
    ensures var victims := Victims(s, neededMb);
            var kept := EvictLru(s, neededMb).loaded;
            && multiset(s.loaded) == multiset(victims) + multiset(kept)
            && forall v, k :: v in victims && k in kept ==> v.slot.lastUsedAt <= k.slot.lastUsedAt
  {
    var victims := Victims(s, neededMb);
    var kept := EvictLru(s, neededMb).loaded;
    EvictionPartitions(s, neededMb);
    forall v, k | v in victims && k in kept ensures v.slot.lastUsedAt <= k.slot.lastUsedAt {
      var j := KeptIsInTail(s, neededMb, k);
      var i :| 0 <= i < |victims| && victims[i] == v;
      LruOrderAscends(s.loaded, i, j);
    }
  }

  lemma EvictionPartitions(s: GpuState, neededMb: int)
    requires DistinctKeys(s.loaded)
    ensures multiset(s.loaded) == multiset(Victims(s, neededMb)) + multiset(EvictLru(s, neededMb).loaded)
  {
    var order := LruOrder(s.loaded);
    var n := |Victims(s, neededMb)|;
    Permutes(s.loaded, LastUsed);
    EvictionLeavesTail(s, neededMb);
    assert order == order[..n] + order[n..];
  }

  lemma LruOrderAscends(loaded: seq<Entry>, i: nat, j: nat)
    requires i < j < |LruOrder(loaded)|
    ensures LruOrder(loaded)[i].slot.lastUsedAt <= LruOrder(loaded)[j].slot.lastUsedAt
  {
    Ascending(loaded, LastUsed);
    assert !Before(LastUsed(LruOrder(loaded)[j]), LastUsed(LruOrder(loaded)[i]));
  }

  /** No shorter prefix of the victims would have made room, and the victims do if anything can. */
  lemma VictimsAreFewest(s: GpuState, neededMb: int)
    requires Inv(s)
    ensures var victims := Victims(s, neededMb);
            && (EvictLru(s, neededMb).loaded == [] || CanFit(EvictLru(s, neededMb), neededMb))
            && forall n :: 0 <= n < |victims| ==>
                 Max0(s.allocatedMb - Footprint(victims[..n])) + neededMb > s.totalMb
  {
    var order := LruOrder(s.loaded);
    var victims := Victims(s, neededMb);
    var n := |victims|;
    assert n == EvictCount(s.totalMb, s.allocatedMb, order, neededMb) && victims == order[..n];
    EvictCountIsLeast(s.totalMb, s.allocatedMb, order, neededMb);
    if n == |order| {
      EvictionLeavesTail(s, neededMb);
      assert order[n..] == [];
      assert |multiset(EvictLru(s, neededMb).loaded)| == 0;
    }
    forall m | 0 <= m < n
      ensures Max0(s.allocatedMb - Footprint(victims[..m])) + neededMb > s.totalMb
    {
      assert victims[..m] == order[..m];
      LruOrderNonNegative(s.loaded, m);
      DrainIsOneSubtraction(s.allocatedMb, order[..m]);
    }
  }

  lemma LruOrderNonNegative(loaded: seq<Entry>, n: nat)
    requires NonNegative(loaded) && n <= |LruOrder(loaded)|
    ensures NonNegative(LruOrder(loaded)[..n])
  {
    Permutes(loaded, LastUsed);
    forall e | e in LruOrder(loaded)[..n] ensures e in LruOrder(loaded) {}
  }

  /** The footprint falls by that of the victims. */
  lemma EvictionFootprint(s: GpuState, neededMb: int)
    requires DistinctKeys(s.loaded)
    ensures Footprint(EvictLru(s, neededMb).loaded) == Footprint(s.loaded) - Footprint(Victims(s, neededMb))
  {
    var victims := Victims(s, neededMb);
    var kept := EvictLru(s, neededMb).loaded;
    EvictionPartitions(s, neededMb);
    assert multiset(victims + kept) == multiset(victims) + multiset(kept);
    FootprintOfPermutation(s.loaded, victims + kept);
    FootprintOfConcat(victims, kept);
  }

  /** The counter stays covered by what is left. */
  lemma EvictionKeepsInv(s: GpuState, neededMb: int)
    requires Inv(s)
    ensures Inv(EvictLru(s, neededMb))
  {
    var victims := Victims(s, neededMb);
    var kept := EvictLru(s, neededMb).loaded;
    LruOrderNonNegative(s.loaded, |victims|);
    DrainIsOneSubtraction(s.allocatedMb, victims);
    EvictionFootprint(s, neededMb);
    WithoutKeepsDistinct(s.loaded, Keys(victims));
    forall e | e in kept ensures e.slot.vramMb >= 0 {
      WithoutCounts(s.loaded, Keys(victims), e);
    }
    FootprintNonNegative(kept);
    FootprintNonNegative(victims);
  }

  /** Eviction makes room exactly for the requests that could ever fit. */
  lemma EvictionMakesRoom(s: GpuState, neededMb: int)
    requires Inv(s)
    ensures CanFit(EvictLru(s, neededMb), neededMb) <==> neededMb <= s.totalMb
  {
    EvictionKeepsInv(s, neededMb);
    VictimsAreFewest(s, neededMb);
  }

  lemma RekeyMovesOneSlot(loaded: seq<Entry>, i: nat, key: string, loraId: Option<string>, now: int)
    requires i < |loaded|
    ensures var after := Rekey(loaded, i, key, loraId, now);
            && |after| == |loaded| && Footprint(after) == Footprint(loaded)
            && (NonNegative(loaded) ==> NonNegative(after))
            && (DistinctKeys(loaded) && FindKey(loaded, key) == |loaded| ==> DistinctKeys(after))
  {
    var rest := loaded[..i] + loaded[i + 1..];
    var moved := Entry(key, loaded[i].slot.(loraId := loraId, lastUsedAt := now));
    FootprintWithoutOne(loaded, i);
    FootprintOfConcat(rest, [moved]);
    assert forall e :: e in rest ==> e in loaded;
  }

  lemma TouchKeepsFootprint(loaded: seq<Entry>, i: nat, now: int)
    requires i < |loaded|
    ensures Footprint(Touch(loaded, i, now)) == Footprint(loaded)
  {
    var after := Touch(loaded, i, now);
    FootprintWithoutOne(loaded, i);
    FootprintWithoutOne(after, i);
    assert after[..i] == loaded[..i] && after[i + 1..] == loaded[i + 1..];
  }

  /** A reused model keeps the number of entries, their footprint and the counter. */
  lemma ReuseKeepsAccounting(s: GpuState, modelId: string, loraId: Option<string>, mb: int, now: int)
    requires mb <= s.totalMb && Reuses(s, modelId, loraId)
    ensures var e := Acquire(s, modelId, loraId, mb, now);
            && e.evicted == [] && e.outcome == Granted(InferenceSlot(modelId, loraId, 0))
            && |e.state.loaded| == |s.loaded|
            && Footprint(e.state.loaded) == Footprint(s.loaded)
            && e.state.allocatedMb == s.allocatedMb
            && (Inv(s) ==> Inv(e.state))
  {
    var key := KeyOf(modelId, loraId);
    var i := FindKey(s.loaded, key);
    if i < |s.loaded| {
      TouchKeepsFootprint(s.loaded, i, now);
    } else {
      RekeyMovesOneSlot(s.loaded, FindBase(s.loaded, modelId, key), key, loraId, now);
    }
  }

  lemma AllocationKeepsInv(s: GpuState, modelId: string, loraId: Option<string>, mb: int, now: int)
    requires Inv(s) && CanFit(s, mb) && FindKey(s.loaded, KeyOf(modelId, loraId)) == |s.loaded|
    ensures Inv(AllocateNew(s, modelId, loraId, mb, now)) <==> mb >= 0
  {
    var added := [Entry(KeyOf(modelId, loraId), ModelSlot(modelId, loraId, mb, now, now))];
    FootprintOfConcat(s.loaded, added);
    if mb < 0 {
      assert (s.loaded + added)[|s.loaded|].slot.vramMb < 0;
      assert added[0] in s.loaded + added;
    }
  }

  /**
    Every request up to the total is granted on the first pass, so the wait loop is dead code;
    the invariant survives exactly when the request is not a negative amount of new memory.
   */
  lemma AcquireSucceedsAtOnce(s: GpuState, modelId: string, loraId: Option<string>, mb: int, now: int)
    requires Inv(s)
    ensures var e := Acquire(s, modelId, loraId, mb, now);
            && (e.outcome.Granted? <==> mb <= s.totalMb)
            && (e.outcome.ExceedsTotal? <==> mb > s.totalMb)
            && e.state.waiters == 0
            && (Inv(e.state) <==> mb >= 0 || Reuses(s, modelId, loraId))
  {
    var key := KeyOf(modelId, loraId);
    if mb <= s.totalMb {
      if Reuses(s, modelId, loraId) {
        ReuseKeepsAccounting(s, modelId, loraId, mb, now);
      } else if CanFit(s, mb) {
        AllocationKeepsInv(s, modelId, loraId, mb, now);
      } else {
        EvictionMakesRoom(s, mb);
        EvictionKeepsInv(s, mb);
        var t := EvictLru(s, mb);
        forall e | e in t.loaded ensures e.key != key {
          WithoutCounts(s.loaded, Keys(Victims(s, mb)), e);
        }
        AllocationKeepsInv(t, modelId, loraId, mb, now);
      }
    }
  }

  /** Nothing is evicted when the request already fits. */
  lemma NoEvictionWhenItFits(s: GpuState, modelId: string, loraId: Option<string>, mb: int, now: int)
    requires Inv(s) && CanFit(s, mb)
    ensures var e := Acquire(s, modelId, loraId, mb, now);
            e.outcome.Granted? && e.evicted == [] && |e.state.loaded| >= |s.loaded|
  {
    AcquireSucceedsAtOnce(s, modelId, loraId, mb, now);
  }

  /** A granted request leaves its key resident and stamped with the time of the call. */
  lemma GrantedIsResident(s: GpuState, modelId: string, loraId: Option<string>, mb: int, now: int)
    requires Inv(s) && mb <= s.totalMb
    ensures var loaded := Acquire(s, modelId, loraId, mb, now).state.loaded;
            exists e :: e in loaded && e.key == KeyOf(modelId, loraId) && e.slot.lastUsedAt == now
  {
    AcquireSucceedsAtOnce(s, modelId, loraId, mb, now);
    var key := KeyOf(modelId, loraId);
    var loaded := Acquire(s, modelId, loraId, mb, now).state.loaded;
    var i := FindKey(s.loaded, key);
    var k := if i < |s.loaded| then i else |loaded| - 1;
    assert loaded[k].key == key && loaded[k].slot.lastUsedAt == now;
    assert loaded[k] in loaded;
  }

  /** Apart from the victims, an acquire changes or adds the entry of its own key only. */
  lemma AcquireTouchesOnlyItsKey(s: GpuState, modelId: string, loraId: Option<string>, mb: int, now: int, e: Entry)
    ensures var after := Acquire(s, modelId, loraId, mb, now);
            e in after.state.loaded ==> e in s.loaded || (e.key == KeyOf(modelId, loraId) && e.slot.lastUsedAt == now)
    ensures var after := Acquire(s, modelId, loraId, mb, now);
            && DistinctKeys(s.loaded) && e in s.loaded && e !in after.evicted
            && !SharesBase(e, modelId, KeyOf(modelId, loraId)) && e.key != KeyOf(modelId, loraId)
            ==> e in after.state.loaded
  {
    var key := KeyOf(modelId, loraId);
    var after := Acquire(s, modelId, loraId, mb, now);
    var i, j := FindKey(s.loaded, key), FindBase(s.loaded, modelId, key);
    if mb > s.totalMb {
    } else if i < |s.loaded| {
      assert forall k :: 0 <= k < |s.loaded| && k != i ==> after.state.loaded[k] == s.loaded[k];
    } else if j < |s.loaded| {
      RekeyedEntries(s.loaded, j, key, loraId, now, e);
    } else if !CanFit(s, mb) {
      var keys := Keys(Victims(s, mb));
      WithoutCounts(s.loaded, keys, e);
      if e in s.loaded && e !in Victims(s, mb) && DistinctKeys(s.loaded) {
        NotAmongVictimKeys(s, mb, e);
        assert e in Without(s.loaded, keys) by {
          assert multiset(Without(s.loaded, keys))[e] == multiset(s.loaded)[e] > 0;
        }
      }
    }
  }

  lemma RekeyedEntries(loaded: seq<Entry>, i: nat, key: string, loraId: Option<string>, now: int, e: Entry)
    requires i < |loaded|
    ensures e in Rekey(loaded, i, key, loraId, now) ==> e in loaded || (e.key == key && e.slot.lastUsedAt == now)
    ensures e in loaded && e != loaded[i] ==> e in Rekey(loaded, i, key, loraId, now)
  {
    assert loaded == loaded[..i] + [loaded[i]] + loaded[i + 1..];
  }

  lemma NotAmongVictimKeys(s: GpuState, neededMb: int, e: Entry)
    requires e in s.loaded && e !in Victims(s, neededMb) && DistinctKeys(s.loaded)
    ensures e.key !in Keys(Victims(s, neededMb))
  {
    Permutes(s.loaded, LastUsed);
    forall v | v in Victims(s, neededMb) ensures v.key != e.key {
      assert v in LruOrder(s.loaded);
      assert v in s.loaded;
      var a :| 0 <= a < |s.loaded| && s.loaded[a] == v;
      var b :| 0 <= b < |s.loaded| && s.loaded[b] == e;
    }
  }

  /** Without eviction, releasing the returned slot restores the counter, for new and reused models. */
  lemma ReleaseUndoesAcquire(s: GpuState, modelId: string, loraId: Option<string>, mb: nat, now: int)
    requires Inv(s) && CanFit(s, mb)
    ensures var e := Acquire(s, modelId, loraId, mb, now);
            e.outcome.Granted? && Release(e.state, e.outcome.slot).allocatedMb == s.allocatedMb
  {
    NoEvictionWhenItFits(s, modelId, loraId, mb, now);
    if Reuses(s, modelId, loraId) {
      ReuseKeepsAccounting(s, modelId, loraId, mb, now);
    }
  }

  lemma GrantWithoutReuse(s: GpuState, modelId: string, loraId: Option<string>, mb: nat, now: int)
    requires Inv(s) && mb <= s.totalMb && !Reuses(s, modelId, loraId)
    ensures var e := Acquire(s, modelId, loraId, mb, now);
            var before := if CanFit(s, mb) then s else EvictLru(s, mb);
            && e.outcome == Granted(InferenceSlot(modelId, loraId, mb))
            && Footprint(e.evicted) == Footprint(s.loaded) - Footprint(before.loaded)
            && e.state.allocatedMb == before.allocatedMb + mb && before.allocatedMb >= 0
            && e.state.loaded
               == before.loaded + [Entry(KeyOf(modelId, loraId), ModelSlot(modelId, loraId, mb, now, now))]
  {
    if !CanFit(s, mb) {
      EvictionMakesRoom(s, mb);
      EvictionKeepsInv(s, mb);
      EvictionFootprint(s, mb);
    }
  }

  /**
    The slot handed out names the request and carries exactly what was newly loaded for it: releasing
    it restores the counter to what it was once room had been made.
   */
  lemma GrantedSlotAccounts(s: GpuState, modelId: string, loraId: Option<string>, mb: nat, now: int)
    requires Inv(s) && mb <= s.totalMb
    ensures var e := Acquire(s, modelId, loraId, mb, now);
            && e.outcome.Granted? && e.outcome.slot.modelId == modelId && e.outcome.slot.loraId == loraId
            && e.outcome.slot.vramMb == Footprint(e.state.loaded) - Footprint(s.loaded) + Footprint(e.evicted)
            && Release(e.state, e.outcome.slot).allocatedMb
               == if Reuses(s, modelId, loraId) || CanFit(s, mb) then s.allocatedMb else EvictLru(s, mb).allocatedMb
  {
    if Reuses(s, modelId, loraId) {
      ReuseKeepsAccounting(s, modelId, loraId, mb, now);
    } else {
      GrantWithoutReuse(s, modelId, loraId, mb, now);
      var before := if CanFit(s, mb) then s else EvictLru(s, mb);
      FootprintOfConcat(before.loaded, [Entry(KeyOf(modelId, loraId), ModelSlot(modelId, loraId, mb, now, now))]);
    }
  }

  /** What is resident after a grant: a new model as requested, or the reused slot with its load time and size. */
  lemma GrantedRecord(s: GpuState, modelId: string, loraId: Option<string>, mb: nat, now: int) returns (k: nat)
    requires Inv(s) && mb <= s.totalMb
    ensures var loaded := Acquire(s, modelId, loraId, mb, now).state.loaded;
            && k < |loaded| && loaded[k].key == KeyOf(modelId, loraId) && loaded[k].slot.lastUsedAt == now
            && (!Reuses(s, modelId, loraId) ==>
                  loaded[k].slot.vramMb == mb && loaded[k].slot.loadedAt == now && loaded[k].slot.loraId == loraId)
            && (Reuses(s, modelId, loraId) ==>
                  exists e :: && e in s.loaded && loaded[k].slot.modelId == e.slot.modelId
                              && loaded[k].slot.vramMb == e.slot.vramMb && loaded[k].slot.loadedAt == e.slot.loadedAt
                              && (e.key != KeyOf(modelId, loraId) ==> loaded[k].slot.loraId == loraId))
  {
    var key := KeyOf(modelId, loraId);
    if Reuses(s, modelId, loraId) {
      var i := FindKey(s.loaded, key);
      var j := if i < |s.loaded| then i else FindBase(s.loaded, modelId, key);
      k := if i < |s.loaded| then i else |s.loaded| - 1;
      assert s.loaded[j] in s.loaded;
    } else {
      GrantWithoutReuse(s, modelId, loraId, mb, now);
      k := |Acquire(s, modelId, loraId, mb, now).state.loaded| - 1;
    }
  }

  /** In any state: new memory is granted only within the total, whoever waits is counted, and a release wakes all. */
  lemma WaitersAreWoken(s: GpuState, modelId: string, loraId: Option<string>, mb: int, now: int, slot: InferenceSlot)
    ensures var e := Acquire(s, modelId, loraId, mb, now);
            && (e.outcome.Granted? && !Reuses(s, modelId, loraId) ==> e.state.allocatedMb <= s.totalMb)
            && (e.outcome.MustWait? ==> e.state.waiters == s.waiters + 1 && e.state.allocatedMb + mb > s.totalMb)
            && (!e.outcome.MustWait? ==> e.state.waiters == s.waiters)
    ensures Release(s, slot).waiters == 0 && Release(s, slot).loaded == s.loaded
  {
  }

  // ------------------------------------------------------------------- runs

  datatype Op =
    | DoAcquire(modelId: string, loraId: Option<string>, mb: int, now: int)
    | DoRelease(slot: InferenceSlot)
    | DoEvict(neededMb: int)

  function Step(s: GpuState, op: Op): GpuState {
    match op
    case DoAcquire(modelId, loraId, mb, now) => Acquire(s, modelId, loraId, mb, now).state
    case DoRelease(slot) => Release(s, slot)
    case DoEvict(neededMb) => EvictLru(s, neededMb)
  }

  function Run(s: GpuState, ops: seq<Op>): GpuState
    decreases ops
  {
    if ops == [] then s else Run(Step(s, ops[0]), ops[1..])
  }

  ghost predicate AsksForMemory(ops: seq<Op>) {
    forall op :: op in ops && op.DoAcquire? ==> op.mb >= 0
  }

  lemma StepKeepsInv(s: GpuState, op: Op)
    requires Inv(s) && (op.DoAcquire? ==> op.mb >= 0)
    ensures Inv(Step(s, op)) && Step(s, op).totalMb == s.totalMb
  {
    match op
    case DoAcquire(modelId, loraId, mb, now) => AcquireSucceedsAtOnce(s, modelId, loraId, mb, now);
    case DoRelease(_) =>
    case DoEvict(neededMb) => EvictionKeepsInv(s, neededMb);
  }

  /** Over every run, also with repeated and late releases. */
  lemma {:induction false} RunKeepsInv(s: GpuState, ops: seq<Op>)
    requires Inv(s) && AsksForMemory(ops)
    ensures Inv(Run(s, ops)) && Run(s, ops).totalMb == s.totalMb
    decreases ops
  {
    if ops != [] {
      StepKeepsInv(s, ops[0]);
      RunKeepsInv(Step(s, ops[0]), ops[1..]);
    }
  }

  /** From start-up, no acquire of at most the total ever waits, whatever happened before. */
  lemma NoAcquireEverWaits(totalMb: nat, ops: seq<Op>, modelId: string, loraId: Option<string>, mb: int, now: int)
    requires AsksForMemory(ops)
    ensures var s := Run(GpuState(totalMb, [], 0, 0), ops);
            && 0 <= s.allocatedMb <= totalMb && s.allocatedMb <= Footprint(s.loaded) && s.waiters == 0
            && !Acquire(s, modelId, loraId, mb, now).outcome.MustWait?
            && (Acquire(s, modelId, loraId, mb, now).outcome.Granted? <==> mb <= totalMb)
  {
    var s0 := GpuState(totalMb, [], 0, 0);
    RunKeepsInv(s0, ops);
    AcquireSucceedsAtOnce(Run(s0, ops), modelId, loraId, mb, now);
  }

  // ------------------------------------- do the loaded models fit on the card?

  /** What the loaded models hold beyond the counter. */
  function Debt(s: GpuState): int { Footprint(s.loaded) - s.allocatedMb }

  /** What releases give back in a run. */
  function GivenBack(ops: seq<Op>): nat
    decreases ops
  {
    if ops == [] then 0
    else (if ops[0].DoRelease? then Max0(ops[0].slot.vramMb) else 0) + GivenBack(ops[1..])
  }

  lemma EvictionDebt(s: GpuState, neededMb: int)
    requires Inv(s)
    ensures 0 <= Debt(EvictLru(s, neededMb)) <= Debt(s)
  {
    var victims := Victims(s, neededMb);
    EvictionKeepsInv(s, neededMb);
    LruOrderNonNegative(s.loaded, |victims|);
    DrainIsOneSubtraction(s.allocatedMb, victims);
    EvictionFootprint(s, neededMb);
  }

  lemma AllocationFootprint(s: GpuState, modelId: string, loraId: Option<string>, mb: int, now: int)
    ensures Footprint(AllocateNew(s, modelId, loraId, mb, now).loaded) == Footprint(s.loaded) + mb
  {
    FootprintOfConcat(s.loaded, [Entry(KeyOf(modelId, loraId), ModelSlot(modelId, loraId, mb, now, now))]);
  }

  /** After an acquire the loaded models hold what they held, less the victims, plus any new memory. */
  lemma AcquireFootprint(s: GpuState, modelId: string, loraId: Option<string>, mb: int, now: int)
    requires Inv(s) && mb <= s.totalMb
    ensures var e := Acquire(s, modelId, loraId, mb, now);
            var added := if Reuses(s, modelId, loraId) then 0 else mb;
            var freed := if Reuses(s, modelId, loraId) || CanFit(s, mb) then 0 else Footprint(Victims(s, mb));
            && Footprint(e.state.loaded) == Footprint(s.loaded) - freed + added
            && Debt(e.state) <= Debt(s)
  {
    if Reuses(s, modelId, loraId) {
      ReuseKeepsAccounting(s, modelId, loraId, mb, now);
    } else {
      AllocationFootprint(s, modelId, loraId, mb, now);
      if !CanFit(s, mb) {
        EvictionMakesRoom(s, mb);
        EvictionFootprint(s, mb);
        EvictionDebt(s, mb);
        AllocationFootprint(EvictLru(s, mb), modelId, loraId, mb, now);
      }
    }
  }

  lemma StepDebt(s: GpuState, op: Op)
    requires Inv(s)
    ensures Debt(Step(s, op)) <= Debt(s) + if op.DoRelease? then Max0(op.slot.vramMb) else 0
  {
    match op
    case DoAcquire(modelId, loraId, mb, now) =>
      if mb <= s.totalMb {
        AcquireFootprint(s, modelId, loraId, mb, now);
      }
    case DoRelease(_) =>
    case DoEvict(neededMb) => EvictionDebt(s, neededMb);
  }

  /** Over every run the loaded models outgrow the counter by no more than what releases gave back. */
  lemma {:induction false} DebtIsGivenBack(s: GpuState, ops: seq<Op>)
    requires Inv(s) && AsksForMemory(ops)
    ensures Debt(Run(s, ops)) <= Debt(s) + GivenBack(ops)
    decreases ops
  {
    if ops != [] {
      StepDebt(s, ops[0]);
      StepKeepsInv(s, ops[0]);
      DebtIsGivenBack(Step(s, ops[0]), ops[1..]);
    }
  }

  /** Until a release gives memory back, the loaded models are what the counter says and fit on the card. */
  lemma LoadedModelsWithinTotal(totalMb: nat, ops: seq<Op>)
    requires AsksForMemory(ops)
    ensures var s := Run(GpuState(totalMb, [], 0, 0), ops);
            && Footprint(s.loaded) <= totalMb + GivenBack(ops)
            && (GivenBack(ops) == 0 ==> Footprint(s.loaded) == s.allocatedMb <= totalMb)
  {
    var s0 := GpuState(totalMb, [], 0, 0);
    RunKeepsInv(s0, ops);
    DebtIsGivenBack(s0, ops);
  }

  /** Whatever is acquired or evicted from here on, the loaded models fit on the card. */
  ghost predicate FitsFromNowOn(s: GpuState) {
    forall ops :: AsksForMemory(ops) && GivenBack(ops) == 0 ==> Footprint(Run(s, ops).loaded) <= s.totalMb
  }

  function Longest(loaded: seq<Entry>): (n: nat)
    ensures forall e :: e in loaded ==> |e.key| <= n
  {
    if loaded == [] then 0
    else
      var rest := Longest(loaded[1..]);
      assert forall e :: e in loaded ==> e == loaded[0] || e in loaded[1..];
      if |loaded[0].key| > rest then |loaded[0].key| else rest
  }

  /** There is always a model that shares no slot with the loaded ones. */
  lemma UnrelatedModel(s: GpuState) returns (modelId: string)
    ensures !Reuses(s, modelId, None)
  {
    modelId := seq(Longest(s.loaded), _ => 'm');
    assert forall e :: e in s.loaded ==> |e.key| < |modelId + ":"|;
  }

  lemma RunOfOne(s: GpuState, op: Op)
    ensures Run(s, [op]) == Step(s, op)
  {
    assert [op][1..] == [];
    assert Run(Step(s, op), []) == Step(s, op);
  }

  /** The loaded models are sure to fit exactly when the counter says all that they hold. */
  lemma FitsFromNowOnIff(s: GpuState)
    requires Inv(s)
    ensures FitsFromNowOn(s) <==> Footprint(s.loaded) == s.allocatedMb
  {
    if Footprint(s.loaded) == s.allocatedMb {
      forall ops | AsksForMemory(ops) && GivenBack(ops) == 0
        ensures Footprint(Run(s, ops).loaded) <= s.totalMb
      {
        RunKeepsInv(s, ops);
        DebtIsGivenBack(s, ops);
      }
    } else {
      var modelId := UnrelatedModel(s);
      var mb := s.totalMb - s.allocatedMb;
      var op := DoAcquire(modelId, None, mb, 0);
      RunOfOne(s, op);
      AllocationFootprint(s, modelId, None, mb, 0);
      assert [op][1..] == [] && GivenBack([op]) == 0;
      assert AsksForMemory([op]);
    }
  }

  lemma ReleaseKeepsCounterExact(s: GpuState, slot: InferenceSlot)
    requires Inv(s) && s.allocatedMb == Footprint(s.loaded)
    ensures var t := Release(s, slot);
            t.allocatedMb == Footprint(t.loaded) <==> slot.vramMb <= 0 || s.allocatedMb == 0
  {
  }

  /**
    A release lowers the counter while its model stays loaded: from then on the loaded models
    can outgrow the card, unless the release gives nothing back.
   */
  lemma ReleaseKeepsFittingIff(s: GpuState, slot: InferenceSlot)
    requires Inv(s) && FitsFromNowOn(s)
    ensures FitsFromNowOn(Release(s, slot)) <==> slot.vramMb <= 0 || s.allocatedMb == 0
  {
    FitsFromNowOnIff(s);
    ReleaseKeepsCounterExact(s, slot);
    FitsFromNowOnIff(Release(s, slot));
  }

  /** Three steps from start-up, for any two unrelated models that fill the card. */
  lemma LoadedModelsCanExceedTotal(totalMb: nat, a: string, b: string)
    requires totalMb > 0 && !(b + ":" <= KeyOf(a, None)) && KeyOf(a, None) != KeyOf(b, None)
    ensures var ops := [DoAcquire(a, None, totalMb, 0), DoRelease(InferenceSlot(a, None, totalMb)),
                        DoAcquire(b, None, totalMb, 1)];
            Footprint(Run(GpuState(totalMb, [], 0, 0), ops).loaded) == 2 * totalMb > totalMb
  {
    var op1, op2, op3 := DoAcquire(a, None, totalMb, 0), DoRelease(InferenceSlot(a, None, totalMb)),
                         DoAcquire(b, None, totalMb, 1);
    var s0 := GpuState(totalMb, [], 0, 0);
    var e := Entry(KeyOf(a, None), ModelSlot(a, None, totalMb, 0, 0));
    var f := Entry(KeyOf(b, None), ModelSlot(b, None, totalMb, 1, 1));
    var s1, s2 := GpuState(totalMb, [e], totalMb, 0), GpuState(totalMb, [e], 0, 0);
    var s3 := GpuState(totalMb, [e] + [f], totalMb, 0);
    assert Step(s0, op1) == s1;
    assert Step(s1, op2) == s2;
    assert Step(s2, op3) == s3;
    RunOfThree(s0, op1, op2, op3);
    FootprintOfConcat([e], [f]);
  }

  lemma RunOfThree(s: GpuState, op1: Op, op2: Op, op3: Op)
    ensures Run(s, [op1, op2, op3]) == Step(Step(Step(s, op1), op2), op3)
  {
    assert [op1, op2, op3][1..] == [op2, op3] && [op2, op3][1..] == [op3] && [op3][1..] == [];
    var s1, s2, s3 := Step(s, op1), Step(Step(s, op1), op2), Step(Step(Step(s, op1), op2), op3);
    assert Run(s3, []) == s3;
    assert Run(s2, [op3]) == s3;
    assert Run(s1, [op2, op3]) == s3;
  }

  ghost predicate Coherent(loaded: seq<Entry>) {
    forall e :: e in loaded ==> e.key == KeyOf(e.slot.modelId, e.slot.loraId)
  }

  lemma SameKeySameModel(a: string, b: string, loraId: Option<string>)
    ensures KeyOf(a, loraId) == KeyOf(b, loraId) <==> a == b
  {
    if KeyOf(a, loraId) == KeyOf(b, loraId) {
      var k := KeyOf(a, loraId);
      assert |a| == |b|;
      assert a == k[..|a|] && b == k[..|b|];
    }
  }

  /**
    A LoRA swap matches by key prefix, so it may take the slot of a model whose tag merely
    extends the requested one.  Keys keep naming their slots exactly when it does not.
   */
  lemma SwapKeepsKeysCoherent(s: GpuState, modelId: string, loraId: Option<string>, mb: int, now: int)
    requires Coherent(s.loaded) && DistinctKeys(s.loaded) && mb <= s.totalMb
    requires FindKey(s.loaded, KeyOf(modelId, loraId)) == |s.loaded|
    requires FindBase(s.loaded, modelId, KeyOf(modelId, loraId)) < |s.loaded|
    ensures Coherent(Acquire(s, modelId, loraId, mb, now).state.loaded) <==>
            s.loaded[FindBase(s.loaded, modelId, KeyOf(modelId, loraId))].slot.modelId == modelId
  {
    var key := KeyOf(modelId, loraId);
    var i := FindBase(s.loaded, modelId, key);
    SameKeySameModel(modelId, s.loaded[i].slot.modelId, loraId);
    CoherentAfterRekey(s.loaded, i, key, loraId, now);
  }

  lemma CoherentAfterRekey(loaded: seq<Entry>, i: nat, key: string, loraId: Option<string>, now: int)
    requires Coherent(loaded) && i < |loaded|
    ensures Coherent(Rekey(loaded, i, key, loraId, now)) <==> key == KeyOf(loaded[i].slot.modelId, loraId)
  {
    var rest := loaded[..i] + loaded[i + 1..];
    var moved := Entry(key, loaded[i].slot.(loraId := loraId, lastUsedAt := now));
    assert Rekey(loaded, i, key, loraId, now) == rest + [moved];
    assert moved in rest + [moved];
    assert forall e :: e in rest ==> e in loaded;
  }

  /** The loaded model that a reusing request is served by. */
  function ReusedModel(s: GpuState, modelId: string, loraId: Option<string>): string
    requires Reuses(s, modelId, loraId)
  {
    var key := KeyOf(modelId, loraId);
    var i := FindKey(s.loaded, key);
    if i < |s.loaded| then s.loaded[i].slot.modelId else s.loaded[FindBase(s.loaded, modelId, key)].slot.modelId
  }

  lemma ResidentAfterReuse(s: GpuState, modelId: string, loraId: Option<string>, mb: int, now: int) returns (k: nat)
    requires mb <= s.totalMb && Reuses(s, modelId, loraId)
    ensures var loaded := Acquire(s, modelId, loraId, mb, now).state.loaded;
            && k < |loaded| && loaded[k].key == KeyOf(modelId, loraId)
            && loaded[k].slot.modelId == ReusedModel(s, modelId, loraId)
  {
    var i := FindKey(s.loaded, KeyOf(modelId, loraId));
    k := if i < |s.loaded| then i else |s.loaded| - 1;
  }

  /**
    A whole acquire: what is resident under the granted key is of the requested model exactly when
    nothing is reused or the reused slot is of that model.
   */
  lemma GrantedModelIff(s: GpuState, modelId: string, loraId: Option<string>, mb: nat, now: int)
    requires Inv(s) && mb <= s.totalMb
    ensures (forall e :: e in Acquire(s, modelId, loraId, mb, now).state.loaded && e.key == KeyOf(modelId, loraId)
              ==> e.slot.modelId == modelId)
            <==> (Reuses(s, modelId, loraId) ==> ReusedModel(s, modelId, loraId) == modelId)
  {
    var loaded := Acquire(s, modelId, loraId, mb, now).state.loaded;
    var key := KeyOf(modelId, loraId);
    AcquireSucceedsAtOnce(s, modelId, loraId, mb, now);
    if Reuses(s, modelId, loraId) {
      var k := ResidentAfterReuse(s, modelId, loraId, mb, now);
      assert loaded[k] in loaded;
      forall e | e in loaded && e.key == key ensures e == loaded[k] {
        var l :| 0 <= l < |loaded| && loaded[l] == e;
      }
    } else {
      var last := |loaded| - 1;
      assert loaded[last].key == key && loaded[last].slot.modelId == modelId;
      forall e | e in loaded && e.key == key ensures e == loaded[last] {
        var l :| 0 <= l < |loaded| && loaded[l] == e;
      }
    }
  }

  /**
    Keys can coincide without a swap: from start-up, a model with a suitable adapter name hands its
    slot to another model, and every key still names its slot.
   */
  lemma AdapterCanNameAnotherModel(totalMb: nat, modelId: string, tag: string, a: nat, b: nat)
    requires a <= totalMb && b <= totalMb
    ensures var tagged, adapter := modelId + ":" + tag, Some(tag + ":_");
            var ops := [DoAcquire(modelId, adapter, a, 0), DoAcquire(tagged, None, b, 1)];
            var s := Run(GpuState(totalMb, [], 0, 0), ops);
            && s.loaded == [Entry(KeyOf(tagged, None), ModelSlot(modelId, adapter, a, 0, 1))]
            && Coherent(s.loaded) && modelId != tagged
  {
    var tagged, adapter := modelId + ":" + tag, Some(tag + ":_");
    var op1, op2 := DoAcquire(modelId, adapter, a, 0), DoAcquire(tagged, None, b, 1);
    var s0 := GpuState(totalMb, [], 0, 0);
    var e := Entry(KeyOf(modelId, adapter), ModelSlot(modelId, adapter, a, 0, 0));
    var touched := Entry(e.key, ModelSlot(modelId, adapter, a, 0, 1));
    assert modelId + ":" + (tag + ":_") == tagged + ":" + "_";
    assert e.key == KeyOf(tagged, None);
    assert Step(s0, op1) == GpuState(totalMb, [e], a, 0);
    assert FindKey([e], e.key) == 0;
    assert Step(GpuState(totalMb, [e], a, 0), op2) == GpuState(totalMb, [touched], a, 0);
    RunOfTwo(s0, op1, op2);
    assert |modelId| < |tagged|;
  }

  /**
    From start-up, for every model and tag: acquiring the tagged model and then the plain one hands
    out the tagged model's slot under the plain model's key.
   */
  lemma SwapCanTakeAnotherModel(totalMb: nat, modelId: string, tag: string, a: nat, b: nat)
    requires a <= totalMb && b <= totalMb
    ensures var tagged := modelId + ":" + tag;
            var s := Run(GpuState(totalMb, [], 0, 0), [DoAcquire(tagged, None, a, 0), DoAcquire(modelId, None, b, 1)]);
            && s.loaded == [Entry(KeyOf(modelId, None), ModelSlot(tagged, None, a, 0, 1))]
            && !Coherent(s.loaded)
  {
    var tagged := modelId + ":" + tag;
    var op1, op2 := DoAcquire(tagged, None, a, 0), DoAcquire(modelId, None, b, 1);
    var s0 := GpuState(totalMb, [], 0, 0);
    var e := Entry(KeyOf(tagged, None), ModelSlot(tagged, None, a, 0, 0));
    var moved := Entry(KeyOf(modelId, None), ModelSlot(tagged, None, a, 0, 1));
    var s1 := GpuState(totalMb, [e], a, 0);
    assert Step(s0, op1) == s1;
    assert e.key == modelId + ":" + (tag + ":_");
    assert e.key != moved.key by { assert |e.key| > |moved.key|; }
    assert SharesBase(e, modelId, moved.key);
    assert FindKey([e], moved.key) == 1 && FindBase([e], modelId, moved.key) == 0;
    assert Rekey([e], 0, moved.key, None, 1) == [moved];
    assert Step(s1, op2) == GpuState(totalMb, [moved], a, 0);
    RunOfTwo(s0, op1, op2);
    assert moved in [moved] && moved.key != KeyOf(tagged, None);
  }

  lemma RunOfTwo(s: GpuState, op1: Op, op2: Op)
    ensures Run(s, [op1, op2]) == Step(Step(s, op1), op2)
  {
    assert [op1, op2][1..] == [op2];
    RunOfOne(Step(s, op1), op2);
  }
}

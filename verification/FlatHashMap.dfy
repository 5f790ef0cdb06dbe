/** The Robin Hood table itself: a growing array of entries, refined to a map. */
module FlatHashMap {
  import opened Basics
  import opened PowersOfTwo
  import opened HashPolicy
  import opened RobinHood

  const MIN_LOOKUPS := 4

  function ComputeMaxLookups(log2OfBuckets: nat): (n: nat)
    ensures n >= MIN_LOOKUPS && n >= log2OfBuckets
  {
    if log2OfBuckets > MIN_LOOKUPS then log2OfBuckets else MIN_LOOKUPS
  }

  /** What the table needs of the hash and the hash policy together: place(k, shift) is a slot
      of a table with 2^(64 - shift) slots, and with a slot for every 64-bit word no two keys
      share one. Without the second part growing could go on for ever. */
  ghost predicate Placing<K(!new)>(place: (K, nat) -> nat) {
    && (forall k, s: nat :: s <= 63 ==> place(k, s) < Pow2(64 - s))
    && (forall a, b :: place(a, 0) == place(b, 0) ==> a == b)
  }

  function FibonacciPlace<K>(hash: K -> nat): (K, nat) -> nat {
    (k: K, shift: nat) => if shift <= 64 then IndexForHash(hash(k), shift) else 0
  }

  /** The Fibonacci policy is a placing for every collision-free 64-bit hash, as that of this
      repository's 64-bit integer keys is. */
  lemma FibonacciPlaces<K(!new)>(hash: K -> nat)
    requires forall k :: hash(k) < TWO64
    requires forall a, b :: hash(a) == hash(b) ==> a == b
    ensures Placing(FibonacciPlace(hash))
  {
    var place := FibonacciPlace(hash);
    forall k, s: nat | s <= 63 ensures place(k, s) < Pow2(64 - s) {
      FibonacciPlaceInRange(hash, k, s);
    }
    forall a, b | place(a, 0) == place(b, 0) ensures a == b {
      FullWidthIndexIsInjective(hash(a), hash(b));
    }
  }

  lemma FibonacciPlaceInRange<K>(hash: K -> nat, k: K, s: nat)
    requires s <= 63
    ensures FibonacciPlace(hash)(k, s) < Pow2(64 - s)
  {
  }

  lemma CeilLog2AtMost64(n: nat)
    requires n <= TWO64
    ensures CeilLog2(n) <= 64
  {
    Pow2Of64();
    CeilLog2Monotone(n, Pow2(64));
    CeilLog2OfPow2(64);
  }

  lemma DoublingGoesUp(e: nat, n: nat, m: nat)
    requires 0 < e < 64 && n >= 2 * Pow2(e) && n == (if 2 * Pow2(e) > 4 then 2 * Pow2(e) else 4) && m >= n
    ensures n <= TWO64 && CeilLog2(m) >= e + 1 && Pow2(CeilLog2(m)) != Pow2(e)
  {
    Pow2Of64();
    Pow2Monotone(e + 1, 64);
    if CeilLog2(m) <= e { Pow2Monotone(CeilLog2(m), e); }
  }

  class Table<K(==, !new), V> {
    var entries: array<Entry<K, V>>
    var numSlotsMinusOne: nat
    var shift: nat
    var maxLookups: nat
    var numElements: nat
    const place: (K, nat) -> nat
    ghost var Contents: map<K, V>

    /** The default table has one slot and refuses every insertion; any other has a power of two. */
    ghost predicate Sized()
      reads this
    {
      && entries.Length == numSlotsMinusOne + 1 + maxLookups
      && if numSlotsMinusOne == 0 then shift == 63 && maxLookups == MIN_LOOKUPS - 1
         else shift <= 63 && numSlotsMinusOne + 1 == Pow2(64 - shift) && maxLookups == ComputeMaxLookups(64 - shift)
    }

    /** All that rehash asks of the table it replaces: the right contents, in any place. */
    ghost predicate Loose()
      reads this, entries
    {
      && Placing(place)
      && Sized()
      && Shaped(entries[..], maxLookups)
      && Holds(entries[..], Contents)
      && numElements == |Contents|
      && (numSlotsMinusOne == 0 ==> Contents == map[])
    }

    ghost predicate Valid()
      reads this, entries
    {
      Loose() && Homed(entries[..], place, shift) && Chained(entries[..])
    }

    /** How often the table can still double; it bounds the emplace-grow-rehash recursion. */
    ghost function Level(): nat
      reads this
    {
      if numSlotsMinusOne == 0 then 64 else shift
    }

    /** The slots a request is answered with, as an exponent of two. */
    function TargetLog2(numBuckets: nat): (e: nat)
      reads this
      requires numBuckets <= TWO64 && numElements <= TWO64 / 2
      ensures e <= 64
    {
      var n := if 2 * numElements > numBuckets then 2 * numElements else numBuckets;
      CeilLog2AtMost64(n);
      if n == 0 then 0 else if CeilLog2(n) < 1 then 1 else CeilLog2(n)
    }

    /** As long as the request and twice the pairs fit in 64 bits' top power of two, that is the
        count the rounding of the machine words gives. */
    lemma RoundedAsCoded(numBuckets: nat)
      requires numBuckets <= TWO64 / 2 && numElements <= TWO64 / 4 && 0 < numBuckets + numElements
      ensures Pow2(TargetLog2(numBuckets))
           == NextSizeOver(if 2 * numElements > numBuckets then 2 * numElements else numBuckets)
    {
      NextSizeOverIs(if 2 * numElements > numBuckets then 2 * numElements else numBuckets);
    }

    constructor (place: (K, nat) -> nat)
      requires Placing(place)
      ensures Valid() && Contents == map[] && fresh(entries) && this.place == place
    {
      this.place := place;
      numSlotsMinusOne, shift, maxLookups, numElements := 0, 63, MIN_LOOKUPS - 1, 0;
      Contents := map[];
      entries := new Entry<K, V>[MIN_LOOKUPS](i => if i < MIN_LOOKUPS - 1 then Vacant() else Sentinel());
      new;
      assert entries[..] == [Vacant(), Vacant(), Vacant(), Sentinel()];
    }

    function BucketCount(): (n: nat)
      reads this
    {
      if numSlotsMinusOne != 0 then numSlotsMinusOne + 1 else 0
    }

    /** end(): the index of the sentinel */
    function End(): nat
      reads this
    {
      numSlotsMinusOne + maxLookups
    }

    /** A probe that stays below the lookup limit stays before the sentinel. */
    lemma HomesAreInRange()
      requires Placing(place) && Sized()
      ensures numSlotsMinusOne > 0 ==> forall k :: place(k, shift) + maxLookups <= End()
      ensures forall k :: place(k, shift) < End()
    {
      assert Pow2(1) == 2;
      forall k ensures place(k, shift) + maxLookups <= End() + (if numSlotsMinusOne == 0 then 1 else 0) {
        assert place(k, shift) < Pow2(64 - shift);
      }
    }

    lemma HomeIsInRange(key: K)
      requires Placing(place) && Sized()
      ensures numSlotsMinusOne > 0 ==> place(key, shift) + maxLookups <= End()
      ensures place(key, shift) < End() && entries.Length == End() + 1 && maxLookups > 0
      ensures numSlotsMinusOne == 0 ==> maxLookups == MIN_LOOKUPS - 1
    {
      HomesAreInRange();
    }

    /** The probing loop that find and emplace share: it stops at the key, or at the slot the
        key would go to. */
    method Probe(key: K) returns (it: nat, distance: nat, found: bool)
      requires Valid()
      ensures it == place(key, shift) + distance && distance <= maxLookups && it <= End()
      ensures found == (key in Contents)
      ensures found ==> it < End() && entries[it].value == Some(Pair(key, Contents[key]))
      ensures !found ==> entries[it].dist < distance
      ensures !found && distance > 0 ==> entries[it - 1].dist >= distance - 1
    {
      hide Holds, Homed, Chained, Placing, Pow2, KeyAt, Shaped, ComputeMaxLookups, Sized;
      HomeIsInRange(key);
      ghost var s := entries[..];
      it, distance := place(key, shift), 0;
      while entries[it].dist >= distance
        invariant it == place(key, shift) + distance && distance <= maxLookups && it <= End()
        invariant it == End() ==> entries[it].dist < distance
        invariant distance > 0 ==> entries[it - 1].dist >= distance - 1
        invariant forall i :: place(key, shift) <= i < it ==> !KeyAt(s, i, key)
        decreases entries.Length - it
      {
        SlotShape(s, maxLookups, it);
        SlotShape(s, maxLookups, it + 1);
        if entries[it].value.value.key == key {
          FoundIsHeld(s, Contents, it, key);
          return it, distance, true;
        }
        OtherKey(s, it, key);
        it, distance := it + 1, distance + 1;
      }
      found := false;
      ScanStopIsSafe(s, place, shift, maxLookups, key, it);
      NotHeld(s, Contents, key);
    }

    /** Reaches the entry of key exactly when the map has one, although it gives up at the
        first slot whose distance is smaller. */
    method Find(key: K) returns (it: nat)
      requires Valid()
      ensures key in Contents ==> it < End() && entries[it].value == Some(Pair(key, Contents[key]))
      ensures key !in Contents ==> it == End()
    {
      var stop, _, found := Probe(key);
      it := if found then stop else End();
    }

    /** Adds the key unless it is there; whatever growing it takes, no other pair is lost,
        duplicated or changed. */
    method Emplace(key: K, val: V) returns (it: nat, inserted: bool)
      requires Valid() && |Contents| < TWO64 / 2
      modifies this, entries
      ensures Valid() && (entries == old(entries) || fresh(entries))
      ensures inserted == (key !in old(Contents))
      ensures Contents == if inserted then old(Contents)[key := val] else old(Contents)
      ensures it < End() && entries[it].value == Some(Pair(key, Contents[key]))
      ensures Level() <= old(Level())
      decreases Level(), 3
    {
      var current, distance, found := Probe(key);
      if found {
        return current, false;
      }
      it, inserted := EmplaceNewKey(distance, current, key, val);
    }

    method EmplaceNewKey(distance: nat, current: nat, key: K, val: V) returns (it: nat, inserted: bool)
      requires Valid() && |Contents| < TWO64 / 2 && key !in Contents
      requires current == place(key, shift) + distance && distance <= maxLookups && current <= End()
      requires entries[current].dist < distance && (distance > 0 ==> entries[current - 1].dist >= distance - 1)
      modifies this, entries
      ensures Valid() && (entries == old(entries) || fresh(entries))
      ensures inserted && Contents == old(Contents)[key := val]
      ensures it < End() && entries[it].value == Some(Pair(key, val))
      ensures Level() <= old(Level())
      decreases Level(), 2
    {
      hide Holds, Shaped, Homed, Chained, Placing, Pow2, ComputeMaxLookups;
      FullWidthNeverCrowds(key, distance, current);
      HomesAreInRange();
      assert Contents[key := val] - {key} == Contents;
      if numSlotsMinusOne == 0 || distance == maxLookups || 2 * (numElements + 1) > numSlotsMinusOne + 1 {
        Grow();
        it, inserted := Emplace(key, val);
      } else if entries[current].IsEmpty() {
        FillLast(current, distance, Pair(key, val), Contents[key := val]);
        it, inserted := current, true;
      } else {
        it, inserted := Displace(distance, current, key, val);
      }
    }

    /** With 2^64 slots every key is alone at its home, so nothing is ever displaced. */
    lemma FullWidthNeverCrowds(key: K, distance: nat, current: nat)
      requires Valid() && key !in Contents
      requires current == place(key, shift) + distance && current <= End()
      requires entries[current].dist < distance && (distance > 0 ==> entries[current - 1].dist >= distance - 1)
      ensures Level() == 0 ==> distance == 0 && entries[current].dist < 0 && numSlotsMinusOne + 1 == TWO64
    {
      Pow2Of64();
      if Level() == 0 {
        HomesAreInRange();
        if distance > 0 {
          DistinctHomesMeanNoProbing(entries[..], place, maxLookups, Contents, current - 1);
          HomeOfAnotherKey(entries[..], place, maxLookups, Contents, current - 1, key);
        } else {
          DistinctHomesMeanNoProbing(entries[..], place, maxLookups, Contents, current);
        }
      }
    }

    /** Fills an empty slot with the one pair of goal that is missing. */
    method FillLast(cur: nat, d: nat, p: Pair<K, V>, ghost goal: map<K, V>)
      requires Placing(place) && Sized() && numSlotsMinusOne > 0
      requires InHand(entries[..], place, shift, maxLookups, goal, cur, p, d)
      requires cur < End() && entries[cur].dist < 0 && numElements + 1 == |goal|
      modifies this`numElements, this`Contents, entries
      ensures Valid() && Contents == goal
      ensures entries[..] == old(entries[..])[cur := Entry(d, Some(p))]
    {
      hide Holds, Shaped, Homed, Chained, Placing, InHand, Pow2;
      FillStep(entries[..], place, shift, maxLookups, goal, cur, p, d);
      entries[cur] := Entry(d, Some(p));
      numElements := numElements + 1;
      Contents := goal;
      assert entries[..] == old(entries[..])[cur := Entry(d, Some(p))];
    }

    /** The displacement chain: the pair in hand takes the slot of one closer to its home, which
        is then in hand. When the lookups run out the new pair is taken back out, so the grown
        table gets exactly the old pairs before the new one is tried again. */
    method Displace(distance: nat, current: nat, key: K, val: V) returns (it: nat, inserted: bool)
      requires Valid() && |Contents| < TWO64 / 2 && key !in Contents && Level() > 0 && numSlotsMinusOne > 0
      requires InHand(entries[..], place, shift, maxLookups, Contents[key := val], current, Pair(key, val), distance)
      requires current < End() && 0 <= entries[current].dist < distance
      modifies this, entries
      ensures Valid() && (entries == old(entries) || fresh(entries))
      ensures inserted && Contents == old(Contents)[key := val]
      ensures it < End() && entries[it].value == Some(Pair(key, val))
      ensures Level() <= old(Level())
      decreases Level(), 1
    {
      ghost var goal := Contents[key := val];
      HomesAreInRange();
      hide Holds, Shaped, Homed, Chained, Placing, InHand, Pow2, ComputeMaxLookups;
      var toInsert, d := Pair(key, val), distance;
      var displaced := TakeSlot(current, toInsert, d, goal);
      it := current;
      var cur;
      cur, toInsert, d := Shuffle(current + 1, displaced.value.value, displaced.dist + 1, it, Pair(key, val), goal);
      if d == maxLookups {
        it, inserted := GiveUp(it, toInsert, key, val);
      } else {
        FillLast(cur, d, toInsert, goal);
        inserted := true;
      }
    }

    /** The pair in hand is put in the place of another. */
    method TakeSlot(cur: nat, p: Pair<K, V>, d: nat, ghost goal: map<K, V>) returns (displaced: Entry<K, V>)
      requires forall k :: place(k, shift) + maxLookups <= entries.Length - 1
      requires InHand(entries[..], place, shift, maxLookups, goal, cur, p, d)
      requires cur < entries.Length - 1 && 0 <= entries[cur].dist < d
      modifies entries
      ensures displaced == old(entries[cur]) && displaced.value.Some?
      ensures entries[..] == old(entries[..])[cur := Entry(d, Some(p))]
      ensures InHand(entries[..], place, shift, maxLookups, goal, cur + 1, displaced.value.value, displaced.dist + 1)
    {
      hide Holds, Shaped, Homed, Chained, InHand;
      SwapStep(entries[..], place, shift, maxLookups, goal, cur, p, d);
      displaced := entries[cur];
      entries[cur] := Entry(d, Some(p));
      assert entries[..] == old(entries[..])[cur := Entry(d, Some(p))];
    }

    /** Runs the chain from cur until the pair in hand meets an empty slot or runs out of lookups. */
    method Shuffle(cur: nat, toInsert: Pair<K, V>, d: nat, ghost result: nat, ghost p: Pair<K, V>,
                   ghost goal: map<K, V>)
      returns (cur': nat, toInsert': Pair<K, V>, d': nat)
      requires forall k :: place(k, shift) + maxLookups <= entries.Length - 1
      requires InHand(entries[..], place, shift, maxLookups, goal, cur, toInsert, d)
      requires result < cur < entries.Length - 1 && entries[result].value == Some(p)
      modifies entries
      ensures Shaped(entries[..], maxLookups) && Holds(entries[..], goal - {toInsert'.key})
      ensures toInsert'.key in goal && goal[toInsert'.key] == toInsert'.val
      ensures result < cur' < entries.Length && entries[result].value == Some(p)
      ensures d' == maxLookups ||
              (InHand(entries[..], place, shift, maxLookups, goal, cur', toInsert', d') && entries[cur'].dist < 0)
    {
      hide Holds, Shaped, Homed, Chained;
      cur', toInsert', d' := cur, toInsert, d;
      while entries[cur'].dist >= 0
        invariant result < cur' < entries.Length - 1
        invariant InHand(entries[..], place, shift, maxLookups, goal, cur', toInsert', d')
        invariant entries[result].value == Some(p)
        decreases entries.Length - cur'
      {
        ghost var s := entries[..];
        if entries[cur'].dist < d' {
          var displaced := TakeSlot(cur', toInsert', d', goal);
          toInsert', d' := displaced.value.value, displaced.dist + 1;
        } else {
          if d' + 1 == maxLookups {
            return cur', toInsert', d' + 1;
          }
          PassStep(s, place, shift, maxLookups, goal, cur', toInsert', d');
          d' := d' + 1;
        }
        cur' := cur' + 1;
      }
    }

    /** The swap that gives up: the last displaced pair goes where the new one had been put. Its
        place is wrong, but the entries hold the old pairs again, and growing puts all in order. */
    method GiveUp(result: nat, toInsert: Pair<K, V>, key: K, val: V) returns (it: nat, inserted: bool)
      requires Placing(place) && Sized() && numSlotsMinusOne > 0 && Level() > 0
      requires numElements == |Contents| < TWO64 / 2 && key !in Contents
      requires Shaped(entries[..], maxLookups) && Holds(entries[..], Contents[key := val] - {toInsert.key})
      requires toInsert.key in Contents[key := val] && Contents[key := val][toInsert.key] == toInsert.val
      requires result < End() && entries[result].value == Some(Pair(key, val))
      modifies this, entries
      ensures Valid() && fresh(entries)
      ensures inserted && Contents == old(Contents)[key := val]
      ensures it < End() && entries[it].value == Some(Pair(key, val))
      ensures Level() <= old(Level())
      decreases Level(), 0, 1
    {
      hide Holds, Homed, Chained, Shaped, Placing, Pow2;
      TakeBackStep(entries[..], maxLookups, Contents, toInsert, result, Pair(key, val));
      entries[result] := Entry(entries[result].dist, Some(toInsert));
      assert entries[..] == old(entries[..])[result := Entry(old(entries[result].dist), Some(toInsert))];
      Grow();
      it, inserted := Emplace(key, val);
    }

    lemma SameSizeSameLevel(numBuckets: nat)
      requires Sized() && numBuckets <= TWO64 && numElements <= TWO64 / 2
      requires Pow2(TargetLog2(numBuckets)) == BucketCount()
      ensures Level() == 64 - TargetLog2(numBuckets)
    {
      hide Pow2, CeilLog2, ComputeMaxLookups, TargetLog2;
      CeilLog2OfPow2(TargetLog2(numBuckets));
      CeilLog2OfPow2(64 - shift);
    }

    method Grow()
      requires Loose() && |Contents| < TWO64 / 2 && Level() > 0
      modifies this, entries
      ensures Valid() && Contents == old(Contents) && fresh(entries)
      ensures Level() < old(Level())
      decreases Level(), 0, 0
    {
      GrowTarget();
      var twice := 2 * BucketCount();
      Rehash(if twice > 4 then twice else 4);
    }

    /** Asking for twice the slots moves at least one level down and never asks for too many. */
    lemma GrowTarget()
      requires Loose() && |Contents| < TWO64 / 2 && Level() > 0
      ensures var n := if 2 * BucketCount() > 4 then 2 * BucketCount() else 4;
              n <= TWO64 && 64 - TargetLog2(n) < Level() && Pow2(TargetLog2(n)) != BucketCount()
    {
      var n := if 2 * BucketCount() > 4 then 2 * BucketCount() else 4;
      var m := if 2 * numElements > n then 2 * numElements else n;
      if numSlotsMinusOne > 0 {
        DoublingGoesUp(64 - shift, n, m);
      } else {
        assert numElements == 0;
        CeilLog2Is(4, 2);
      }
    }

    /** Moves every pair into a table of the requested size, which may grow again meanwhile. */
    method Rehash(numBuckets: nat)
      requires Loose() && |Contents| <= TWO64 / 2 && numBuckets <= TWO64
      requires Valid() || (numBuckets > 0 && Pow2(TargetLog2(numBuckets)) != BucketCount())
      modifies this, entries
      ensures Valid() && Contents == old(Contents) && (entries == old(entries) || fresh(entries))
      ensures numBuckets > 0 ==> Level() <= 64 - old(TargetLog2(numBuckets))
      ensures numBuckets > 0 && old(Pow2(TargetLog2(numBuckets)) != BucketCount()) ==> fresh(entries)
      decreases 64 - TargetLog2(numBuckets), 5
    {
      var e := TargetLog2(numBuckets);
      if numBuckets == 0 && numElements == 0 {
        ResetToEmptyState();
        return;
      }
      if Pow2(e) == BucketCount() {
        SameSizeSameLevel(numBuckets);
        return;
      }
      var oldEntries, end := entries, End();
      ghost var s, m := entries[..], Contents;
      StartEmpty(e);
      Refill(oldEntries, end, s, m);
    }

    /** The re-insertion loop: every value of the old buckets is emplaced in the new ones. */
    method Refill(oldEntries: array<Entry<K, V>>, end: nat, ghost s: seq<Entry<K, V>>, ghost m: map<K, V>)
      requires Valid() && Contents == map[] && entries != oldEntries
      requires oldEntries[..] == s && end == |s| - 1 && Holds(s, m) && |m| <= TWO64 / 2
      requires forall i :: 0 <= i < end ==> (s[i].dist >= 0 <==> s[i].value.Some?)
      modifies this, entries, oldEntries
      ensures Valid() && Contents == m && (entries == old(entries) || fresh(entries))
      ensures Level() <= old(Level())
      decreases Level(), 4
    {
      hide Holds, Homed, Chained, Shaped, Placing, Sized, Pow2;
      assert Copied(s, Contents, 0);
      hide Copied;
      for i := 0 to end
        invariant Valid() && (entries == old(entries) || fresh(entries)) && entries != oldEntries
        invariant Level() <= old(Level())
        invariant forall j :: i <= j < end ==> oldEntries[j] == s[j]
        invariant Copied(s, Contents, i)
      {
        CopyOne(s, m, Contents, i);
        if oldEntries[i].HasValue() {
          var p := oldEntries[i].value.value;
          var _, _ := Emplace(p.key, p.val);
          oldEntries[i] := Vacant();
        }
      }
      CopiedAll(s, m, Contents);
    }

    /** Fresh, empty buckets: 2^e of them. */
    method StartEmpty(e: nat)
      requires 0 < e <= 64 && Placing(place)
      modifies this
      ensures Valid() && fresh(entries) && Contents == map[] && Level() == 64 - e
    {
      hide Shaped, Homed, Chained, Holds, Placing;
      assert Pow2(e) == 2 * Pow2(e - 1);
      shift := 64 - e;
      numSlotsMinusOne := Pow2(e) - 1;
      maxLookups := ComputeMaxLookups(e);
      hide Pow2;
      var specialEndItem := numSlotsMinusOne + maxLookups;
      entries := new Entry<K, V>[specialEndItem + 1](i => if i == specialEndItem then Sentinel() else Vacant());
      numElements := 0;
      Contents := map[];
      assert AllVacant(entries[..]);
      AllVacantIsEmpty(entries[..], place, shift, maxLookups);
    }

    method ResetToEmptyState()
      requires Loose() && numElements == 0
      modifies this
      ensures Valid() && Contents == old(Contents) && fresh(entries)
    {
      entries := new Entry<K, V>[MIN_LOOKUPS](i => if i < MIN_LOOKUPS - 1 then Vacant() else Sentinel());
      numSlotsMinusOne, shift, maxLookups := 0, 63, MIN_LOOKUPS - 1;
      assert entries[..] == [Vacant(), Vacant(), Vacant(), Sentinel()];
    }

    /** Erases the value at it, moves its followers one slot nearer home and returns the same slot,
        where the next value is if it moved. */
    method EraseAt(it: nat) returns (next: nat)
      requires Valid() && it < End() && entries[it].HasValue()
      modifies this`numElements, this`Contents, entries
      ensures Valid() && Contents == old(Contents) - {old(entries[it].value.value.key)}
      ensures next == it < End() && it + 1 < old(entries.Length) && entries == old(entries)
      ensures entries[next].value == if old(entries[it + 1].dist) > 0 then old(entries[it + 1].value) else None
    {
      hide Holds, Gap, Homed, Chained, Placing, Pow2, KeysIn;
      ghost var s := entries[..];
      StartClearing(s, maxLookups, Contents, it);
      ClearValue(s, s, maxLookups, Contents, Contents, it, it);
      Contents := Contents - {entries[it].value.value.key};
      entries[it] := Vacant();
      numElements := numElements - 1;
      assert entries[..] == s[it := Vacant()];
      ClearedLeavesGap(s, entries[..], place, shift, maxLookups, Contents, it, it + 1);
      CloseGapByOne(it + 1);
      next := it;
    }

    /** The shifting loop of the single form. */
    method CloseGapByOne(first: nat)
      requires 0 < first < entries.Length
      requires Shifting(entries[..], place, shift, maxLookups, Contents, first, Min(entries[first].dist, 1))
      modifies entries
      ensures Shaped(entries[..], maxLookups) && Homed(entries[..], place, shift) && Chained(entries[..])
      ensures Holds(entries[..], Contents)
      ensures entries[first - 1].value == old(entries[if entries[first].dist > 0 then first else first - 1].value)
    {
      hide Holds, Gap, Homed, Chained, Shaped;
      var next := first;
      while !entries[next].IsAtDesiredPosition()
        invariant first <= next < entries.Length
        invariant if next == first then entries[..] == old(entries[..])
                  else old(entries[first].dist) > 0 && entries[first - 1].value == old(entries[first].value)
        invariant Shifting(entries[..], place, shift, maxLookups, Contents, next, Min(entries[next].dist, 1))
        decreases entries.Length - next
      {
        ShiftBack(next, 1);
        next := next + 1;
      }
    }

    /** One move of the shift: only a vacant slot is written. */
    method ShiftBack(it: nat, w: nat)
      requires it < entries.Length && entries[it].dist > 0
      requires Shifting(entries[..], place, shift, maxLookups, Contents, it, w)
      modifies entries
      ensures 0 < w <= it < entries.Length - 1 && old(entries[it - w].value.None?)
      ensures entries[..]
          == old(entries[..])[it - w := Entry(old(entries[it].dist) - w, old(entries[it].value))][it := Vacant()]
      ensures Shifting(entries[..], place, shift, maxLookups, Contents, it + 1, Min(entries[it + 1].dist, w))
    {
      hide Shifting;
      ghost var s := entries[..];
      ShiftStep(s, place, shift, maxLookups, Contents, it, w);
      entries[it - w] := Entry(entries[it].dist - w, entries[it].value);
      entries[it] := Vacant();
      assert entries[..] == s[it - w := Entry(s[it].dist - w, s[it].value)][it := Vacant()];
    }

    /** Erases exactly the keys in [begin_it, end_it) and returns where the value at end_it went. */
    method EraseRange(beginIt: nat, endIt: nat) returns (it: nat)
      requires Valid() && beginIt <= endIt <= End()
      requires endIt < End() ==> entries[endIt].HasValue()
      modifies this`numElements, this`Contents, entries
      ensures Valid() && Contents == old(Contents) - old(KeysIn(entries[..], beginIt, endIt))
      ensures it <= endIt && entries[it].value == old(entries[endIt].value)
    {
      hide Holds, Gap, Homed, Chained, Placing, Pow2;
      if beginIt == endIt {
        assert old(KeysIn(entries[..], beginIt, endIt)) == {};
        return beginIt;
      }
      hide KeysIn;
      ghost var s := entries[..];
      ClearRange(beginIt, endIt);
      ClearedLeavesGap(s, entries[..], place, shift, maxLookups, Contents, beginIt, endIt);
      if endIt == End() {
        return endIt;
      }
      it := CloseGap(endIt, Min(entries[endIt].dist, endIt - beginIt));
    }

    /** The shifting loop of the range form; the distance moved only ever shrinks. */
    method CloseGap(endIt: nat, distance: int) returns (it: nat)
      requires endIt < entries.Length && 0 <= distance <= endIt && distance <= entries[endIt].dist
      requires entries[endIt].dist <= 0 ==> distance == 0
      requires Shifting(entries[..], place, shift, maxLookups, Contents, endIt, distance)
      modifies entries
      ensures Shaped(entries[..], maxLookups) && Homed(entries[..], place, shift) && Chained(entries[..])
      ensures Holds(entries[..], Contents)
      ensures it <= endIt && entries[it].value == old(entries[endIt].value)
    {
      hide Holds, Gap, Homed, Chained, Shaped;
      var numToMove, next := distance, endIt;
      it := endIt - numToMove;
      while !entries[next].IsAtDesiredPosition()
        invariant next == endIt ==> entries[..] == old(entries[..])
        invariant it == endIt - distance && endIt <= next < entries.Length
        invariant (entries[next].dist > 0 ==> 0 <= numToMove)
        invariant Shifting(entries[..], place, shift, maxLookups, Contents, next, numToMove)
        invariant if next == endIt then entries[next].value == old(entries[endIt].value) && it == next - numToMove
                  else entries[it].value == old(entries[endIt].value) && it < next - numToMove
        decreases entries.Length - next
      {
        ShiftBack(next, numToMove);
        next := next + 1;
        numToMove := Min(entries[next].dist, numToMove);
      }
    }

    method ClearRange(beginIt: nat, endIt: nat)
      requires Sized() && Shaped(entries[..], maxLookups) && Holds(entries[..], Contents) && numElements == |Contents|
      requires beginIt <= endIt <= End()
      modifies this`numElements, this`Contents, entries
      ensures Contents == old(Contents) - old(KeysIn(entries[..], beginIt, endIt)) && numElements == |Contents|
      ensures Cleared(old(entries[..]), entries[..], beginIt, endIt)
      ensures Holds(entries[..], Contents)
    {
      hide Holds, KeysIn, Shaped, Cleared, Clearing, Pow2;
      ghost var s := entries[..];
      StartClearing(s, maxLookups, Contents, beginIt);
      for i := beginIt to endIt
        invariant numElements == |Contents|
        invariant Clearing(s, entries[..], maxLookups, old(Contents), Contents, beginIt, i)
      {
        ClearOne(i, s, old(Contents), beginIt);
      }
      ClearingMeans(s, entries[..], maxLookups, old(Contents), Contents, beginIt, endIt);
    }

    /** One round of the clearing loop. */
    method ClearOne(i: nat, ghost s: seq<Entry<K, V>>, ghost before: map<K, V>, ghost beginIt: nat)
      requires beginIt <= i < |s| - 1 && |s| == entries.Length && numElements == |Contents|
      requires Clearing(s, entries[..], maxLookups, before, Contents, beginIt, i)
      modifies this`numElements, this`Contents, entries
      ensures numElements == |Contents| && Clearing(s, entries[..], maxLookups, before, Contents, beginIt, i + 1)
    {
      hide Clearing;
      ghost var t := entries[..];
      if entries[i].IsEmpty() {
        PassVacant(s, t, maxLookups, before, Contents, beginIt, i);
      } else {
        ClearValue(s, t, maxLookups, before, Contents, beginIt, i);
        Contents := Contents - {entries[i].value.value.key};
        entries[i] := Vacant();
        numElements := numElements - 1;
        assert entries[..] == t[i := Vacant()] by { hide *; }
      }
    }

    method EraseKey(key: K) returns (count: nat)
      requires Valid()
      modifies this`numElements, this`Contents, entries
      ensures Valid() && Contents == old(Contents) - {key}
      ensures count == if key in old(Contents) then 1 else 0
    {
      var found := Find(key);
      if found == End() {
        return 0;
      }
      var _ := EraseAt(found);
      count := 1;
    }

    /** begin(): the first value, or the end */
    method Begin() returns (it: nat)
      requires Valid()
      ensures it <= End() && entries[it].HasValue() && forall i :: 0 <= i < it ==> entries[i].IsEmpty()
    {
      it := 0;
      while !entries[it].HasValue()
        invariant it <= End() && forall i :: 0 <= i < it ==> entries[i].IsEmpty()
        decreases End() - it
      {
        it := it + 1;
      }
    }

    /** operator++: the next value, or the end */
    method Next(current: nat) returns (it: nat)
      requires Valid() && current < End()
      ensures current < it <= End() && entries[it].HasValue() && forall i :: current < i < it ==> entries[i].IsEmpty()
    {
      it := current + 1;
      while entries[it].IsEmpty()
        invariant current < it <= End() && forall i :: current < i < it ==> entries[i].IsEmpty()
        decreases End() - it
      {
        it := it + 1;
      }
    }
  }

  // ----- whole runs

  datatype Op<K, V> = OpEmplace(key: K, val: V) | OpErase(key: K) | OpRehash(numBuckets: nat)

  ghost function Meaning<K, V>(ops: seq<Op<K, V>>, m: map<K, V>): map<K, V> {
    if ops == [] then m
    else
      var before := Meaning(ops[..|ops| - 1], m);
      match ops[|ops| - 1]
      case OpEmplace(k, v) => if k in before then before else before[k := v]
      case OpErase(k) => before - {k}
      case OpRehash(_) => before
  }

  /** Any run of operations leaves the table finding exactly what the run means for a map. */
  method Run<K(==, !new), V>(t: Table<K, V>, ops: seq<Op<K, V>>)
    requires t.Valid() && |t.Contents| + |ops| < TWO64 / 2
    requires forall i :: 0 <= i < |ops| && ops[i].OpRehash? ==> ops[i].numBuckets <= TWO64
    modifies t, t.entries
    ensures t.Valid() && (t.entries == old(t.entries) || fresh(t.entries))
    ensures t.Contents == Meaning(ops, old(t.Contents)) && t.numElements == |t.Contents|
  {
    hide Holds, Homed, Chained, Shaped, Placing, Pow2;
    for i := 0 to |ops|
      invariant t.Valid() && (t.entries == old(t.entries) || fresh(t.entries))
      invariant t.Contents == Meaning(ops[..i], old(t.Contents))
      invariant |t.Contents| <= |old(t.Contents)| + i
    {
      assert ops[..i + 1][..i] == ops[..i];
      match ops[i]
      case OpEmplace(k, v) =>
        var _, _ := t.Emplace(k, v);
      case OpErase(k) =>
        assert (t.Contents - {k}).Keys == t.Contents.Keys - {k};
        var _ := t.EraseKey(k);
      case OpRehash(n) =>
        t.Rehash(n);
    }
    assert ops[..|ops|] == ops;
  }
}

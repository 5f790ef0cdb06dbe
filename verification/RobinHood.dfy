/** The facts about a Robin Hood entry sequence that the hash table's methods rest on. */
module RobinHood {

  import opened Basics

  datatype Pair<+K, +V> = Pair(key: K, val: V)

  /** A slot: how far its value is from the slot it hashes to, -1 when it holds none. */
  datatype Entry<+K, +V> = Entry(dist: int, value: Option<Pair<K, V>>) {
    predicate HasValue() { dist >= 0 }
    predicate IsEmpty() { dist < 0 }
    predicate IsAtDesiredPosition() { dist <= 0 }
  }

  function Vacant<K, V>(): Entry<K, V> { Entry(-1, None) }

  /** The special end item: it looks occupied, so scans stop at it, but holds no value. */
  function Sentinel<K, V>(): Entry<K, V> { Entry(0, None) }

  /** Distances stay below the lookup limit, and the sentinel is in place. */
  ghost predicate Shaped<K, V>(s: seq<Entry<K, V>>, lookups: int) {
    && |s| > 1
    && s[|s| - 1] == Sentinel()
    && forall i :: 0 <= i < |s| - 1 ==> -1 <= s[i].dist < lookups && (s[i].dist >= 0 <==> s[i].value.Some?)
  }

  /** Every value sits at its home slot plus its distance. */
  ghost predicate Homed<K, V>(s: seq<Entry<K, V>>, place: (K, nat) -> nat, shift: nat) {
    forall i :: 0 <= i < |s| - 1 && s[i].value.Some? ==> place(s[i].value.value.key, shift) + s[i].dist == i
  }

  /** From one slot to the next the distance rises by at most one. */
  ghost predicate Chained<K, V>(s: seq<Entry<K, V>>) {
    && (|s| > 0 ==> s[0].dist <= 0)
    && forall j :: 0 < j < |s| ==> s[j].dist <= s[j - 1].dist + 1
  }

  ghost predicate KeyAt<K, V>(s: seq<Entry<K, V>>, i: int, k: K) {
    0 <= i < |s| - 1 && s[i].value.Some? && s[i].value.value.key == k
  }

  /** The entries hold exactly the pairs of m, each once. */
  ghost predicate Holds<K, V>(s: seq<Entry<K, V>>, m: map<K, V>) {
    && (forall i :: 0 <= i < |s| - 1 && s[i].value.Some? ==>
          s[i].value.value.key in m && m[s[i].value.value.key] == s[i].value.value.val)
    && (forall i, j :: 0 <= i < j < |s| - 1 && s[i].value.Some? && s[j].value.Some? ==>
          s[i].value.value.key != s[j].value.value.key)
    && (forall k :: k in m ==> exists i :: KeyAt(s, i, k))
  }

  lemma HoldsAfterPut<K, V>(s: seq<Entry<K, V>>, m: map<K, V>, i: nat, e: Entry<K, V>)
    requires Holds(s, m) && i < |s| - 1 && s[i].value.None?
    requires e.value.Some? && e.value.value.key !in m
    ensures Holds(s[i := e], m[e.value.value.key := e.value.value.val])
  {
    var t, k := s[i := e], e.value.value.key;
    var n := m[k := e.value.value.val];
    forall k' | k' in n
      ensures exists j :: KeyAt(t, j, k')
    {
      if k' == k {
        assert KeyAt(t, i, k');
      } else {
        var j :| KeyAt(s, j, k');
        assert KeyAt(t, j, k');
      }
    }
  }

  lemma HoldsAfterRemove<K, V>(s: seq<Entry<K, V>>, m: map<K, V>, i: nat)
    requires Holds(s, m) && i < |s| - 1 && s[i].value.Some?
    ensures Holds(s[i := Vacant()], m - {s[i].value.value.key})
  {
    var t, n := s[i := Vacant()], m - {s[i].value.value.key};
    forall k' | k' in n
      ensures exists j :: KeyAt(t, j, k')
    {
      var j :| KeyAt(s, j, k');
      assert KeyAt(t, j, k');
    }
  }

  /** Writing the pair in hand over the pair at i takes the latter out of the entries. */
  lemma HoldsAfterSwap<K, V>(s: seq<Entry<K, V>>, goal: map<K, V>, hand: Pair<K, V>, i: nat, d: int)
    requires hand.key in goal && goal[hand.key] == hand.val
    requires Holds(s, goal - {hand.key}) && i < |s| - 1 && s[i].value.Some?
    ensures var out := s[i].value.value;
            out.key in goal && goal[out.key] == out.val && Holds(s[i := Entry(d, Some(hand))], goal - {out.key})
  {
    var out := s[i].value.value;
    HoldsAfterRemove(s, goal - {hand.key}, i);
    HoldsAfterPut(s[i := Vacant()], goal - {hand.key} - {out.key}, i, Entry(d, Some(hand)));
    assert s[i := Vacant()][i := Entry(d, Some(hand))] == s[i := Entry(d, Some(hand))];
    assert (goal - {hand.key} - {out.key})[hand.key := hand.val] == goal - {out.key};
  }

  lemma HoldsAfterMove<K, V>(s: seq<Entry<K, V>>, m: map<K, V>, from: nat, to: nat, d: int)
    requires Holds(s, m) && from < |s| - 1 && to < |s| - 1
    requires s[from].value.Some? && s[to].value.None?
    ensures Holds(s[to := Entry(d, s[from].value)][from := Vacant()], m)
  {
    var p := s[from].value.value;
    HoldsAfterRemove(s, m, from);
    HoldsAfterPut(s[from := Vacant()], m - {p.key}, to, Entry(d, Some(p)));
    assert (m - {p.key})[p.key := p.val] == m;
    assert s[from := Vacant()][to := Entry(d, Some(p))] == s[to := Entry(d, Some(p))][from := Vacant()];
  }

  /** The entries determine the map. */
  lemma HoldsIsFunctional<K, V>(s: seq<Entry<K, V>>, m: map<K, V>, n: map<K, V>)
    requires Holds(s, m) && Holds(s, n)
    ensures m == n
  {
    forall k | k in m ensures k in n && n[k] == m[k] {
      var i :| KeyAt(s, i, k);
    }
    forall k | k in n ensures k in m {
      var i :| KeyAt(s, i, k);
    }
  }

  /** c has the pairs of the first i entries of s. */
  ghost predicate Copied<K, V>(s: seq<Entry<K, V>>, c: map<K, V>, i: int) {
    && (forall j :: 0 <= j < i && j < |s| - 1 && s[j].value.Some? ==>
          s[j].value.value.key in c && c[s[j].value.value.key] == s[j].value.value.val)
    && (forall k :: k in c ==> exists j :: j < i && KeyAt(s, j, k))
  }

  lemma CopyAdds<K, V>(s: seq<Entry<K, V>>, c: map<K, V>, i: nat, p: Pair<K, V>)
    requires Copied(s, c, i) && i < |s| - 1 && s[i].value == Some(p) && p.key !in c
    ensures Copied(s, c[p.key := p.val], i + 1)
  {
    assert KeyAt(s, i, p.key);
    var d := c[p.key := p.val];
    forall k | k in d ensures exists j :: j < i + 1 && KeyAt(s, j, k) {
      if k != p.key {
        var j :| j < i && KeyAt(s, j, k);
      }
    }
  }

  lemma CopiedBefore<K, V>(s: seq<Entry<K, V>>, m: map<K, V>, c: map<K, V>, i: nat)
    requires Holds(s, m) && Copied(s, c, i) && i < |s| - 1 && s[i].value.Some?
    ensures forall k :: k in c ==> k in m && k != s[i].value.value.key
  {
    forall k | k in c ensures k in m && k != s[i].value.value.key {
      var j :| j < i && KeyAt(s, j, k);
    }
  }

  lemma FewerKeys<K, V>(m: map<K, V>, c: map<K, V>, key: K)
    requires key in m && forall k :: k in c ==> k in m && k != key
    ensures key !in c && |c| < |m|
  {
    SubsetCardinality(c.Keys, m.Keys - {key});
  }

  /** Copying one more entry never meets a key that is already there. */
  lemma CopyOne<K, V>(s: seq<Entry<K, V>>, m: map<K, V>, c: map<K, V>, i: nat)
    requires Holds(s, m) && Copied(s, c, i) && i < |s| - 1
    ensures s[i].value.None? ==> Copied(s, c, i + 1)
    ensures s[i].value.Some? ==> var p := s[i].value.value;
            p.key !in c && |c| < |m| && Copied(s, c[p.key := p.val], i + 1)
  {
    if s[i].value.Some? {
      hide Holds, Copied;
      var p := s[i].value.value;
      KeyIsHeld(s, m, i);
      CopiedBefore(s, m, c, i);
      FewerKeys(m, c, p.key);
      CopyAdds(s, c, i, p);
    }
  }

  lemma SubsetCardinality<T>(a: set<T>, b: set<T>)
    requires a <= b
    ensures |a| <= |b|
  {
    if a != {} {
      var x :| x in a;
      SubsetCardinality(a - {x}, b - {x});
    }
  }

  lemma CopiedAll<K, V>(s: seq<Entry<K, V>>, m: map<K, V>, c: map<K, V>)
    requires Holds(s, m) && Copied(s, c, |s| - 1)
    ensures c == m
  {
    forall k | k in m ensures k in c && c[k] == m[k] {
      var i :| KeyAt(s, i, k);
    }
    forall k | k in c ensures k in m {
      var i :| i < |s| - 1 && KeyAt(s, i, k);
    }
  }

  /** Walking back from p, the distance falls by at most one a slot. */
  lemma {:induction false} ChainBack<K, V>(s: seq<Entry<K, V>>, i: nat, p: nat)
    requires Chained(s) && i <= p < |s|
    ensures s[p].dist <= s[i].dist + (p - i)
    decreases p
  {
    if i < p { ChainBack(s, i, p - 1); }
  }

  /** A scan for k that stops at the first slot with a smaller distance has passed every
      slot that can hold k. */
  lemma ScanStopIsSafe<K, V>(s: seq<Entry<K, V>>, place: (K, nat) -> nat, shift: nat, lookups: int, k: K, stop: nat)
    requires Shaped(s, lookups) && Homed(s, place, shift) && Chained(s)
    requires place(k, shift) <= stop < |s| && s[stop].dist < stop - place(k, shift)
    ensures forall p :: KeyAt(s, p, k) ==> place(k, shift) <= p < stop
    ensures forall p :: KeyAt(s, p, k) ==> s[p].dist == p - place(k, shift)
  {
    forall p | KeyAt(s, p, k) ensures p < stop {
      if stop <= p { ChainBack(s, stop, p); }
    }
  }

  /** Only empty slots, and the sentinel. */
  ghost predicate AllVacant<K, V>(s: seq<Entry<K, V>>) {
    |s| > 1 && s[|s| - 1] == Sentinel() && forall i :: 0 <= i < |s| - 1 ==> s[i] == Vacant()
  }

  lemma AllVacantIsEmpty<K, V>(s: seq<Entry<K, V>>, place: (K, nat) -> nat, shift: nat, lookups: int)
    requires AllVacant(s) && lookups >= 0
    ensures Shaped(s, lookups) && Homed(s, place, shift) && Chained(s) && Holds(s, map[])
  {
  }

  lemma SlotShape<K, V>(s: seq<Entry<K, V>>, lookups: int, i: nat)
    requires Shaped(s, lookups) && i < |s|
    ensures if i < |s| - 1 then -1 <= s[i].dist < lookups && (s[i].dist >= 0 <==> s[i].value.Some?)
        else s[i] == Sentinel()
  {
  }

  lemma FoundIsHeld<K, V>(s: seq<Entry<K, V>>, m: map<K, V>, i: nat, k: K)
    requires Holds(s, m) && i < |s| - 1 && s[i].value.Some? && s[i].value.value.key == k
    ensures k in m && s[i].value == Some(Pair(k, m[k]))
  {
  }

  lemma OtherKey<K, V>(s: seq<Entry<K, V>>, i: nat, k: K)
    requires i < |s| && s[i].value.Some? && s[i].value.value.key != k
    ensures !KeyAt(s, i, k)
  {
  }

  lemma NotHeld<K, V>(s: seq<Entry<K, V>>, m: map<K, V>, k: K)
    requires Holds(s, m) && forall p :: !KeyAt(s, p, k)
    ensures k !in m
  {
  }

  /** Storing a value over one with a smaller distance, or over none, keeps the order. */
  lemma StoreKeepsOrder<K, V>(s: seq<Entry<K, V>>, place: (K, nat) -> nat, shift: nat, lookups: int, i: nat,
                              e: Entry<K, V>)
    requires Shaped(s, lookups) && Homed(s, place, shift) && Chained(s)
    requires i < |s| - 1 && e.value.Some? && s[i].dist < e.dist < lookups
    requires place(e.value.value.key, shift) + e.dist == i
    requires e.dist > 0 ==> s[i - 1].dist >= e.dist - 1
    ensures Shaped(s[i := e], lookups) && Homed(s[i := e], place, shift) && Chained(s[i := e])
  {
  }

  /** Midway through a displacement chain: the entries are in order and hold all of goal but
      the pair in hand, which may go to cur at distance d. */
  ghost predicate InHand<K, V>(s: seq<Entry<K, V>>, place: (K, nat) -> nat, shift: nat, lookups: int,
                               goal: map<K, V>, cur: nat, p: Pair<K, V>, d: nat) {
    && Shaped(s, lookups) && Homed(s, place, shift) && Chained(s)
    && p.key in goal && goal[p.key] == p.val && Holds(s, goal - {p.key})
    && d < lookups && cur < |s| - 1 && cur == place(p.key, shift) + d
    && (d > 0 ==> s[cur - 1].dist >= d - 1)
  }

  /** The pair in hand takes the slot of a pair nearer its home, which is then in hand. */
  lemma SwapStep<K, V>(s: seq<Entry<K, V>>, place: (K, nat) -> nat, shift: nat, lookups: int,
                       goal: map<K, V>, cur: nat, p: Pair<K, V>, d: nat)
    requires InHand(s, place, shift, lookups, goal, cur, p, d) && 0 <= s[cur].dist < d
    requires forall k :: place(k, shift) + lookups <= |s| - 1
    ensures s[cur].value.Some?
    ensures InHand(s[cur := Entry(d, Some(p))], place, shift, lookups, goal, cur + 1, s[cur].value.value,
                   s[cur].dist + 1)
  {
    StoreKeepsOrder(s, place, shift, lookups, cur, Entry(d, Some(p)));
    HoldsAfterSwap(s, goal, p, cur, d);
  }

  /** A slot whose pair is at least as far from home is passed over. */
  lemma PassStep<K, V>(s: seq<Entry<K, V>>, place: (K, nat) -> nat, shift: nat, lookups: int,
                       goal: map<K, V>, cur: nat, p: Pair<K, V>, d: nat)
    requires InHand(s, place, shift, lookups, goal, cur, p, d) && d <= s[cur].dist && d + 1 < lookups
    requires forall k :: place(k, shift) + lookups <= |s| - 1
    ensures InHand(s, place, shift, lookups, goal, cur + 1, p, d + 1)
  {
  }

  /** An empty slot takes the pair in hand and nothing is missing any more. */
  lemma FillStep<K, V>(s: seq<Entry<K, V>>, place: (K, nat) -> nat, shift: nat, lookups: int,
                       goal: map<K, V>, cur: nat, p: Pair<K, V>, d: nat)
    requires InHand(s, place, shift, lookups, goal, cur, p, d) && s[cur].dist < 0
    ensures var t := s[cur := Entry(d, Some(p))];
            Shaped(t, lookups) && Homed(t, place, shift) && Chained(t) && Holds(t, goal)
  {
    StoreKeepsOrder(s, place, shift, lookups, cur, Entry(d, Some(p)));
    HoldsAfterPut(s, goal - {p.key}, cur, Entry(d, Some(p)));
    assert (goal - {p.key})[p.key := p.val] == goal;
  }

  /** When the chain gives up, the pair in hand replaces the new one and the entries hold the
      old pairs again, though no longer in order. */
  lemma TakeBackStep<K, V>(s: seq<Entry<K, V>>, lookups: int, m: map<K, V>, p: Pair<K, V>, result: nat, q: Pair<K, V>)
    requires Shaped(s, lookups) && q.key !in m && p.key in m[q.key := q.val] && m[q.key := q.val][p.key] == p.val
    requires Holds(s, m[q.key := q.val] - {p.key}) && result < |s| - 1 && s[result].value == Some(q)
    ensures var t := s[result := Entry(s[result].dist, Some(p))]; Shaped(t, lookups) && Holds(t, m)
  {
    HoldsAfterSwap(s, m[q.key := q.val], p, result, s[result].dist);
    assert m[q.key := q.val] - {q.key} == m;
  }

  /** When no two keys share a home slot, no two values have the same home. */
  lemma SameHomeSameSlot<K, V>(s: seq<Entry<K, V>>, place: (K, nat) -> nat, lookups: int, m: map<K, V>, i: nat, j: nat)
    requires Shaped(s, lookups) && Homed(s, place, 0) && Holds(s, m)
    requires forall a, b :: place(a, 0) == place(b, 0) ==> a == b
    requires i < |s| - 1 && j < |s| - 1 && s[i].dist >= 0 && s[j].dist >= 0 && i - s[i].dist == j - s[j].dist
    ensures i == j
  {
    assert place(s[i].value.value.key, 0) == place(s[j].value.value.key, 0);
  }

  /** Nor does a key that is not in the table share the home of one that is. */
  lemma HomeOfAnotherKey<K, V>(s: seq<Entry<K, V>>, place: (K, nat) -> nat, lookups: int, m: map<K, V>, i: nat, key: K)
    requires Shaped(s, lookups) && Homed(s, place, 0) && Holds(s, m)
    requires forall a, b :: place(a, 0) == place(b, 0) ==> a == b
    requires i < |s| - 1 && s[i].dist >= 0 && i - s[i].dist == place(key, 0)
    ensures key in m
  {
    assert place(s[i].value.value.key, 0) == place(key, 0);
  }

  /** When no two keys share a home slot, every value is in its home slot. */
  lemma {:induction false} DistinctHomesMeanNoProbing<K, V>(s: seq<Entry<K, V>>, place: (K, nat) -> nat, lookups: int,
                                                            m: map<K, V>, i: nat)
    requires Shaped(s, lookups) && Homed(s, place, 0) && Chained(s) && Holds(s, m)
    requires forall a, b :: place(a, 0) == place(b, 0) ==> a == b
    requires i < |s|
    ensures s[i].dist <= 0
    decreases i
  {
    if i < |s| - 1 && s[i].dist > 0 {
      DistinctHomesMeanNoProbing(s, place, lookups, m, i - 1);
      SameHomeSameSlot(s, place, lookups, m, i - 1, i);
    }
  }

  // ----- closing the gap an erasure leaves

  /** The slots [it - w, it) are vacant, everything else is in order, and the value at it would
      be in order w slots earlier. */
  ghost predicate Gap<K, V>(s: seq<Entry<K, V>>, place: (K, nat) -> nat, shift: nat, lookups: int, it: nat, w: int) {
    && Shaped(s, lookups) && Homed(s, place, shift)
    && 0 < w <= it < |s| && w <= s[it].dist
    && (forall j :: it - w <= j < it ==> s[j] == Vacant())
    && s[0].dist <= 0
    && (forall j :: 0 < j < |s| && j != it ==> s[j].dist <= s[j - 1].dist + 1)
    && s[it].dist - w <= (if it == w then 0 else s[it - w - 1].dist + 1)
  }

  function Min(a: int, b: int): int { if a < b then a else b }

  ghost predicate Shifted<K, V>(s: seq<Entry<K, V>>, t: seq<Entry<K, V>>, it: nat, w: int) {
    && 0 < w <= it < |s| == |t|
    && t[it] == Vacant() && t[it - w] == Entry(s[it].dist - w, s[it].value)
    && forall j :: 0 <= j < |s| && j != it && j != it - w ==> t[j] == s[j]
  }

  lemma ShiftKeepsHomes<K, V>(s: seq<Entry<K, V>>, t: seq<Entry<K, V>>, place: (K, nat) -> nat, shift: nat,
                              lookups: int, it: nat, w: int)
    requires Gap(s, place, shift, lookups, it, w) && Shifted(s, t, it, w)
    ensures it < |s| - 1 && s[it - w].value.None?
    ensures Shaped(t, lookups) && Homed(t, place, shift)
  {
    assert s[it - w] == Vacant();
  }

  lemma ShiftMovesGap<K, V>(s: seq<Entry<K, V>>, t: seq<Entry<K, V>>, place: (K, nat) -> nat, shift: nat,
                            lookups: int, it: nat, w: int)
    requires Gap(s, place, shift, lookups, it, w) && Shifted(s, t, it, w) && it < |s| - 1
    requires Shaped(t, lookups) && Homed(t, place, shift)
    ensures t[0].dist <= 0 && forall j :: 0 < j < |t| && j != it + 1 ==> t[j].dist <= t[j - 1].dist + 1
    ensures t[it + 1].dist > 0 ==> Gap(t, place, shift, lookups, it + 1, Min(t[it + 1].dist, w))
  {
    hide Homed;
    assert forall j :: it - w < j < it + 1 ==> t[j] == Vacant();
  }

  /** Midway through a shift: the gap, if one is left, is in front of it, and m is held. */
  ghost predicate Shifting<K, V>(s: seq<Entry<K, V>>, place: (K, nat) -> nat, shift: nat, lookups: int, m: map<K, V>,
                                 it: nat, w: int) {
    && it < |s| && Holds(s, m)
    && if s[it].dist > 0 then Gap(s, place, shift, lookups, it, w)
       else Shaped(s, lookups) && Homed(s, place, shift) && Chained(s)
  }

  /** Moving one value w slots back, onto a vacant slot, moves the gap one slot on and never
      widens it. */
  lemma ShiftStep<K, V>(s: seq<Entry<K, V>>, place: (K, nat) -> nat, shift: nat, lookups: int, m: map<K, V>, it: nat,
                        w: int)
    requires Shifting(s, place, shift, lookups, m, it, w) && s[it].dist > 0
    ensures 0 < w <= it < |s| - 1 && s[it - w].value.None?
    ensures var t := s[it - w := Entry(s[it].dist - w, s[it].value)][it := Vacant()];
            Shifting(t, place, shift, lookups, m, it + 1, Min(t[it + 1].dist, w))
  {
    hide Holds;
    var t := s[it - w := Entry(s[it].dist - w, s[it].value)][it := Vacant()];
    assert s[it].value.Some?;
    assert Shifted(s, t, it, w);
    ShiftKeepsHomes(s, t, place, shift, lookups, it, w);
    HoldsAfterMove(s, m, it, it - w, s[it].dist - w);
    ShiftEnds(s, t, place, shift, lookups, m, it, w);
  }

  lemma ShiftEnds<K, V>(s: seq<Entry<K, V>>, t: seq<Entry<K, V>>, place: (K, nat) -> nat, shift: nat, lookups: int,
                        m: map<K, V>, it: nat, w: int)
    requires Gap(s, place, shift, lookups, it, w) && Shifted(s, t, it, w) && it < |s| - 1
    requires Shaped(t, lookups) && Homed(t, place, shift) && Holds(t, m)
    ensures Shifting(t, place, shift, lookups, m, it + 1, Min(t[it + 1].dist, w))
  {
    hide Holds, Homed;
    ShiftMovesGap(s, t, place, shift, lookups, it, w);
    hide Gap;
  }

  ghost function KeysIn<K, V>(s: seq<Entry<K, V>>, b: nat, e: nat): set<K> {
    set i | b <= i < e && i < |s| && s[i].value.Some? :: s[i].value.value.key
  }

  ghost predicate Cleared<K, V>(s: seq<Entry<K, V>>, t: seq<Entry<K, V>>, b: nat, e: nat) {
    |t| == |s| && forall i :: 0 <= i < |s| ==> t[i] == if b <= i < e then Vacant() else s[i]
  }

  /** Midway through clearing: [b, i) is vacant and c is m without the keys that were there. */
  ghost predicate Clearing<K, V>(s: seq<Entry<K, V>>, t: seq<Entry<K, V>>, lookups: int, m: map<K, V>, c: map<K, V>,
                                 b: nat, i: nat) {
    Cleared(s, t, b, i) && Shaped(t, lookups) && Holds(t, c) && c == m - KeysIn(s, b, i)
  }

  lemma StartClearing<K, V>(s: seq<Entry<K, V>>, lookups: int, m: map<K, V>, b: nat)
    requires Shaped(s, lookups) && Holds(s, m)
    ensures Clearing(s, s, lookups, m, m, b, b)
  {
    assert KeysIn(s, b, b) == {};
  }

  lemma ClearingMeans<K, V>(s: seq<Entry<K, V>>, t: seq<Entry<K, V>>, lookups: int, m: map<K, V>, c: map<K, V>,
                            b: nat, i: nat)
    requires Clearing(s, t, lookups, m, c, b, i)
    ensures Cleared(s, t, b, i) && Shaped(t, lookups) && Holds(t, c) && c == m - KeysIn(s, b, i)
  {
  }

  lemma KeysInNext<K, V>(s: seq<Entry<K, V>>, b: nat, i: nat)
    requires b <= i < |s|
    ensures KeysIn(s, b, i + 1) == KeysIn(s, b, i) + (if s[i].value.Some? then {s[i].value.value.key} else {})
  {
  }

  lemma MapWithout<K, V>(m: map<K, V>, ks: set<K>, k: K)
    requires k in m - ks
    ensures m - ks - {k} == m - (ks + {k}) && |m - ks - {k}| == |m - ks| - 1
  {
    assert (m - ks - {k}).Keys == (m - ks).Keys - {k};
  }

  lemma PassVacant<K, V>(s: seq<Entry<K, V>>, t: seq<Entry<K, V>>, lookups: int, m: map<K, V>, c: map<K, V>, b: nat,
                         i: nat)
    requires Clearing(s, t, lookups, m, c, b, i) && b <= i < |s| - 1 && t[i].dist < 0
    ensures Clearing(s, t, lookups, m, c, b, i + 1)
  {
    hide Holds;
    KeysInNext(s, b, i);
    hide KeysIn;
    assert t[i] == s[i] == Vacant();
  }

  lemma ClearValue<K, V>(s: seq<Entry<K, V>>, t: seq<Entry<K, V>>, lookups: int, m: map<K, V>, c: map<K, V>, b: nat,
                         i: nat)
    requires Clearing(s, t, lookups, m, c, b, i) && b <= i < |s| - 1 && t[i].dist >= 0
    ensures t[i].value.Some?
    ensures |c - {t[i].value.value.key}| == |c| - 1
    ensures Clearing(s, t[i := Vacant()], lookups, m, c - {t[i].value.value.key}, b, i + 1)
  {
    hide Holds, KeysIn;
    assert t[i] == s[i] && t[i].value.Some?;
    var k := t[i].value.value.key;
    KeyIsHeld(t, c, i);
    HoldsAfterRemove(t, c, i);
    KeysInNext(s, b, i);
    MapWithout(m, KeysIn(s, b, i), k);
  }

  lemma KeyIsHeld<K, V>(s: seq<Entry<K, V>>, m: map<K, V>, i: nat)
    requires Holds(s, m) && i < |s| - 1 && s[i].value.Some?
    ensures s[i].value.value.key in m
  {
  }

  lemma ClearedKeepsHomes<K, V>(s: seq<Entry<K, V>>, t: seq<Entry<K, V>>, place: (K, nat) -> nat, shift: nat,
                                lookups: int, b: nat, e: nat)
    requires Shaped(s, lookups) && Homed(s, place, shift) && b < e < |s| && Cleared(s, t, b, e)
    ensures Shaped(t, lookups) && Homed(t, place, shift)
  {
  }

  lemma ClearedKeepsOrder<K, V>(s: seq<Entry<K, V>>, t: seq<Entry<K, V>>, lookups: int, b: nat, e: nat)
    requires Shaped(s, lookups) && Chained(s) && b < e < |s| && Cleared(s, t, b, e)
    ensures t[0].dist <= 0
    ensures forall j :: 0 < j < |t| && j != e ==> t[j].dist <= t[j - 1].dist + 1
    ensures t[e].dist <= 0 ==> Chained(t)
  {
  }

  /** Clearing a range leaves a gap in front of the value that follows it, or none. */
  lemma ClearedLeavesGap<K, V>(s: seq<Entry<K, V>>, t: seq<Entry<K, V>>, place: (K, nat) -> nat, shift: nat,
                               lookups: int, m: map<K, V>, b: nat, e: nat)
    requires Shaped(s, lookups) && Homed(s, place, shift) && Chained(s)
    requires b < e < |s| && Cleared(s, t, b, e)
    requires Holds(t, m)
    ensures Shifting(t, place, shift, lookups, m, e, Min(t[e].dist, e - b))
  {
    hide Holds, Shaped, Homed, Chained;
    ClearedKeepsHomes(s, t, place, shift, lookups, b, e);
    ClearedKeepsOrder(s, t, lookups, b, e);
    if t[e].dist > 0 {
      ChainBack(s, 0, e);
      if b > 0 { ChainBack(s, b - 1, e); }
      StartIsLow(s);
    }
  }

  lemma StartIsLow<K, V>(s: seq<Entry<K, V>>)
    requires Chained(s) && |s| > 0
    ensures s[0].dist <= 0
  {
  }
}

/** Where the parts of an encoded object are: its header, and each of its children. */
module MsgPackParts {
  import opened Basics
  import opened MsgPackGrammar
  import opened MsgPackNumbers
  import opened MsgPackCheck

  lemma HeaderComesFirst(data: seq<byte>, pos: nat, o: Obj)
    requires WellFormed(o) && StartsAt(Encode(o), data, pos)
    ensures WellFormedHead(o) && AllWellFormed(o.Children())
    ensures |Encode(o)| == |HeadBytes(o)| + |EncodeAll(o.Children())|
    ensures StartsAt(HeadBytes(o), data, pos) && StartsAt(EncodeAll(o.Children()), data, pos + |HeadBytes(o)|)
  {
    hide HeadBytes, Encode, StartsAt;
    EncodeUnfolds(o);
    SplitStart(HeadBytes(o), EncodeAll(o.Children()), data, pos);
  }

  lemma AllOfPrefix(items: seq<Obj>, i: nat)
    requires AllWellFormed(items) && i < |items|
    ensures AllWellFormed(items[..i]) && AllWellFormed(items[..i + 1]) && AllWellFormed(items[i..])
    ensures WellFormed(items[i])
    ensures EncodeAll(items) == EncodeAll(items[..i]) + EncodeAll(items[i..])
    ensures EncodeAll(items[i..]) == Encode(items[i]) + EncodeAll(items[i..][1..])
    ensures EncodeAll(items[..i + 1]) == EncodeAll(items[..i]) + Encode(items[i])
  {
    hide Encode, EncodeAll, WellFormed, AllWellFormed;
    PartsAreWellFormed(items, i);
    assert items == items[..i] + items[i..] && items[..i + 1] == items[..i] + [items[i]];
    EncodeAllOfSum(items[..i], items[i..]);
    EncodeAllOfSum(items[..i], [items[i]]);
    FirstAndRest(items[i..]);
    EncodeOne(items[i]);
  }

  lemma EncodeOne(o: Obj)
    requires WellFormed(o)
    ensures AllWellFormed([o]) && EncodeAll([o]) == Encode(o)
  {
    assert EncodeAll([o]) == Encode(o) + EncodeAll([]);
  }

  lemma PartsAreWellFormed(items: seq<Obj>, i: nat)
    requires AllWellFormed(items) && i < |items|
    ensures AllWellFormed(items[..i]) && AllWellFormed(items[..i + 1]) && AllWellFormed(items[i..])
    ensures AllWellFormed(items[i..][1..])
    ensures WellFormed(items[i]) && AllWellFormed([items[i]])
  {
    hide WellFormed;
  }

  /** The i-th child starts behind those before it. */
  lemma ChildStarts(data: seq<byte>, pos: nat, items: seq<Obj>, i: nat)
    requires AllWellFormed(items) && i < |items| && StartsAt(EncodeAll(items), data, pos)
    ensures AllWellFormed(items[..i]) && AllWellFormed(items[..i + 1])
    ensures WellFormed(items[i]) && StartsAt(Encode(items[i]), data, pos + |EncodeAll(items[..i])|)
    ensures |EncodeAll(items[..i + 1])| == |EncodeAll(items[..i])| + |Encode(items[i])|
  {
    hide Encode, EncodeAll, WellFormed, AllWellFormed, StartsAt;
    AllOfPrefix(items, i);
    PartsAreWellFormed(items, i);
    SplitStart(EncodeAll(items[..i]), EncodeAll(items[i..]), data, pos);
    SplitStart(Encode(items[i]), EncodeAll(items[i..][1..]), data, pos + |EncodeAll(items[..i])|);
  }

  lemma FirstByte(data: seq<byte>, pos: nat, h: seq<byte>)
    requires h != [] && StartsAt(h, data, pos)
    ensures pos + |h| <= |data| && data[pos] == h[0] && data[pos..pos + |h|] == h
  {
  }

  /** A field reads the same in the buffer as on its own. */
  lemma LoadsAlike(data: seq<byte>, pos: nat, d: seq<byte>)
    requires StartsAt(d, data, pos)
    ensures |d| == 1 ==> Load(data, pos, W8) == Load(d, 0, W8)
    ensures |d| == 2 ==> Load(data, pos, W16) == Load(d, 0, W16)
    ensures |d| == 4 ==> Load(data, pos, W32) == Load(d, 0, W32)
    ensures |d| == 8 ==> LoadU64(data, pos) == LoadU64(d, 0)
  {
    assert forall k :: 0 <= k < |d| ==> data[pos + k] == d[k];
    hide Join;
  }

  /** Objects one after the other. */
  ghost predicate Placed(data: seq<byte>, pos: nat, items: seq<Obj>) {
    AllWellFormed(items) && StartsAt(EncodeAll(items), data, pos)
  }

  /** The cursor is behind the first n items. */
  ghost predicate Behind(items: seq<Obj>, start: nat, n: nat, r: nat) {
    n <= |items| && AllWellFormed(items[..n]) && r == start + |EncodeAll(items[..n])|
  }

  lemma BehindNone(items: seq<Obj>, start: nat)
    ensures Behind(items, start, 0, start)
  {
    assert items[..0] == [];
  }

  lemma BehindAll(items: seq<Obj>, start: nat, r: nat)
    requires Behind(items, start, |items|, r)
    ensures AllWellFormed(items) && r == start + |EncodeAll(items)|
  {
    assert items[..|items|] == items;
  }

  lemma NextItem(data: seq<byte>, items: seq<Obj>, start: nat, n: nat, r: nat)
    requires Placed(data, start, items) && n < |items| && Behind(items, start, n, r)
    ensures WellFormed(items[n]) && StartsAt(Encode(items[n]), data, r)
    ensures Behind(items, start, n + 1, r + |Encode(items[n])|)
  {
    hide Encode, EncodeAll, WellFormed, AllWellFormed, StartsAt;
    ChildStarts(data, start, items, n);
  }

  lemma NextPair(data: seq<byte>, items: seq<Obj>, start: nat, i: nat, r: nat)
    requires Placed(data, start, items) && 2 * i + 1 < |items| && Behind(items, start, 2 * i, r)
    ensures WellFormed(items[2 * i]) && StartsAt(Encode(items[2 * i]), data, r)
    ensures WellFormed(items[2 * i + 1]) && StartsAt(Encode(items[2 * i + 1]), data, r + |Encode(items[2 * i])|)
    ensures Behind(items, start, 2 * (i + 1), r + |Encode(items[2 * i])| + |Encode(items[2 * i + 1])|)
  {
    hide Encode, EncodeAll, WellFormed, AllWellFormed, StartsAt, Placed, Behind;
    NextItem(data, items, start, 2 * i, r);
    NextItem(data, items, start, 2 * i + 1, r + |Encode(items[2 * i])|);
    assert 2 * (i + 1) == 2 * i + 1 + 1;
  }

  /** mp_next passes exactly the object. */
  lemma NextPassesObject(data: seq<byte>, pos: nat, o: Obj)
    requires WellFormed(o) && StartsAt(Encode(o), data, pos)
    ensures pos <= |data| && Skip(data, pos, 1) == Some(pos + |Encode(o)|)
  {
    EncodeOne(o);
    hide Encode, EncodeAll, WellFormed;
    PassesEncodings(data, pos, [o], 1);
    assert Skip(data, pos + |Encode(o)|, 0) == Some(pos + |Encode(o)|);
  }
}

/** A reader of MessagePack bytes, by the numbers of the "Formats" section of its specification,
    and that it reads back every object that was encoded. */
module MsgPackRead {
  import opened Basics
  import opened MsgPackGrammar
  import N = MsgPackNumbers

  datatype Value =
    | Nil
    | Bool(on: bool)
    | Int(n: int)
    | Real(bits: seq<byte>)
    | Text(text: seq<byte>)
    | Blob(data: seq<byte>)
    | Extension(tag: byte, data: seq<byte>)
    | List(items: seq<Value>)
    | Dict(items: seq<Value>)     // keys and values, alternating

  /** The number whose digits to the base 256 these are, most significant first. */
  function Big(s: seq<byte>): nat {
    if s == [] then 0 else 256 * Big(s[..|s| - 1]) + s[|s| - 1]
  }

  /** Two's complement in |s| bytes. */
  function Signed(s: seq<byte>): int {
    if s != [] && s[0] >= 128 then Big(s) - Power256(|s|) else Big(s)
  }

  function Power256(n: nat): nat { if n == 0 then 1 else 256 * Power256(n - 1) }

  /** What the first byte, with length and payload, says; the rest is what follows. */
  datatype Head = Scalar(v: Value, rest: seq<byte>) | Collection(pairs: bool, count: nat, rest: seq<byte>) | Unreadable

  /** A payload of len bytes from position at. */
  function Payload(s: seq<byte>, at: nat, len: nat, make: seq<byte> -> Value): Head {
    if at + len <= |s| then Scalar(make(s[at..at + len]), s[at + len..]) else Unreadable
  }

  /** A payload behind a length of `width` bytes. */
  function LongPayload(s: seq<byte>, width: nat, tagged: bool, make: (byte, seq<byte>) -> Value): Head {
    var at := 1 + width + if tagged then 1 else 0;
    if at > |s| then Unreadable
    else Payload(s, at, Big(s[1..1 + width]), d => make(s[at - 1], d))
  }

  function LongCollection(s: seq<byte>, width: nat, pairs: bool): Head {
    if 1 + width > |s| then Unreadable
    else
      var count := Big(s[1..1 + width]);
      Collection(pairs, if pairs then 2 * count else count, s[1 + width..])
  }

  function ReadHead(s: seq<byte>): Head
    requires s != []
  {
    var c: int := s[0];
    if c <= 0x7f then Scalar(Int(c), s[1..])
    else if c <= 0x8f then Collection(true, 2 * (c - 0x80), s[1..])
    else if c <= 0x9f then Collection(false, c - 0x90, s[1..])
    else if c <= 0xbf then Payload(s, 1, c - 0xa0, d => Text(d))
    else if c >= 0xe0 then Scalar(Int(c - 256), s[1..])
    else
      match c
      case 0xc0 => Scalar(Nil, s[1..])
      case 0xc2 => Scalar(Bool(false), s[1..])
      case 0xc3 => Scalar(Bool(true), s[1..])
      case 0xc4 => LongPayload(s, 1, false, (_, d) => Blob(d))
      case 0xc5 => LongPayload(s, 2, false, (_, d) => Blob(d))
      case 0xc6 => LongPayload(s, 4, false, (_, d) => Blob(d))
      case 0xc7 => LongPayload(s, 1, true, (t: byte, d) => Extension(t, d))
      case 0xc8 => LongPayload(s, 2, true, (t: byte, d) => Extension(t, d))
      case 0xc9 => LongPayload(s, 4, true, (t: byte, d) => Extension(t, d))
      case 0xca => Payload(s, 1, 4, d => Real(d))
      case 0xcb => Payload(s, 1, 8, d => Real(d))
      case 0xcc => Payload(s, 1, 1, d => Int(Big(d)))
      case 0xcd => Payload(s, 1, 2, d => Int(Big(d)))
      case 0xce => Payload(s, 1, 4, d => Int(Big(d)))
      case 0xcf => Payload(s, 1, 8, d => Int(Big(d)))
      case 0xd0 => Payload(s, 1, 1, d => Int(Signed(d)))
      case 0xd1 => Payload(s, 1, 2, d => Int(Signed(d)))
      case 0xd2 => Payload(s, 1, 4, d => Int(Signed(d)))
      case 0xd3 => Payload(s, 1, 8, d => Int(Signed(d)))
      case 0xd4 => if |s| < 2 then Unreadable else Payload(s, 2, 1, d => Extension(s[1], d))
      case 0xd5 => if |s| < 2 then Unreadable else Payload(s, 2, 2, d => Extension(s[1], d))
      case 0xd6 => if |s| < 2 then Unreadable else Payload(s, 2, 4, d => Extension(s[1], d))
      case 0xd7 => if |s| < 2 then Unreadable else Payload(s, 2, 8, d => Extension(s[1], d))
      case 0xd8 => if |s| < 2 then Unreadable else Payload(s, 2, 16, d => Extension(s[1], d))
      case 0xd9 => LongPayload(s, 1, false, (_, d) => Text(d))
      case 0xda => LongPayload(s, 2, false, (_, d) => Text(d))
      case 0xdb => LongPayload(s, 4, false, (_, d) => Text(d))
      case 0xdc => LongCollection(s, 2, false)
      case 0xdd => LongCollection(s, 4, false)
      case 0xde => LongCollection(s, 2, true)
      case 0xdf => LongCollection(s, 4, true)
      case _ => Unreadable
  }

  /** One value from the front of s, and what follows it. */
  function Read(s: seq<byte>): (r: Option<(Value, seq<byte>)>)
    ensures r.Some? ==> |r.value.1| < |s|
    decreases |s|, 0, 0
  {
    if s == [] then None
    else
      match ReadHead(s)
      case Scalar(v, rest) => if |rest| < |s| then Some((v, rest)) else None
      case Collection(pairs, count, rest) =>
        if |rest| >= |s| then None
        else
          (match ReadMany(rest, count)
           case None => None
           case Some((items, after)) => Some((if pairs then Dict(items) else List(items), after)))
      case Unreadable => None
  }

  function ReadMany(s: seq<byte>, count: nat): (r: Option<(seq<Value>, seq<byte>)>)
    ensures r.Some? ==> |r.value.1| <= |s|
    decreases |s|, 1, count
  {
    if count == 0 then Some(([], s))
    else
      match Read(s)
      case None => None
      case Some((v, rest)) =>
        match ReadMany(rest, count - 1)
        case None => None
        case Some((more, after)) => Some(([v] + more, after))
  }

  // ----- what objects mean

  function ValueOf(o: Obj): Value
    requires WellFormed(o) && Standard(o)
    decreases o, 0
  {
    match o
    case Single(c) =>
      if c <= 0x7f then Int(c) else if c >= 0xe0 then Int(c - 256) else if c == 0xc0 then Nil else Bool(c == 0xc3)
    case Number(c, d) => if c <= 0xcb then Real(d) else if c <= 0xcf then Int(Big(d)) else Int(Signed(d))
    case FixStr(d) => Text(d)
    case Str(_, d) => Text(d)
    case Bin(_, d) => Blob(d)
    case FixExt(t, d) => Extension(t, d)
    case Ext(_, t, d) => Extension(t, d)
    case FixArr(items) => List(ValuesOf(items))
    case Arr(_, items) => List(ValuesOf(items))
    case FixMap(items) => Dict(ValuesOf(items))
    case Map(_, items) => Dict(ValuesOf(items))
  }

  function ValuesOf(objs: seq<Obj>): (vs: seq<Value>)
    requires AllWellFormed(objs) && forall o :: o in objs ==> Standard(o)
    ensures |vs| == |objs| && forall i :: 0 <= i < |objs| ==> vs[i] == ValueOf(objs[i])
    decreases objs, 1
  {
    if objs == [] then [] else [ValueOf(objs[0])] + ValuesOf(objs[1..])
  }

  lemma BigOfOneMore(s: seq<byte>, c: byte)
    ensures Big(s + [c]) == Join(Big(s), c)
  {
    assert (s + [c])[..|s|] == s;
  }

  lemma {:induction false} BigOfSum(a: seq<byte>, b: seq<byte>)
    ensures Big(a + b) == Big(a) * Power256(|b|) + Big(b)
  {
    if b == [] {
      assert a + b == a;
    } else {
      var n := |b| - 1;
      BigOfSum(a, b[..n]);
      assert (a + b)[..|a + b| - 1] == a + b[..n];
      assert Big(a) * (256 * Power256(n)) == 256 * (Big(a) * Power256(n));
    }
  }

  lemma LoadIsBig(s: seq<byte>, at: nat, w: Width)
    requires at + (match w case W8 => 1 case W16 => 2 case W32 => 4) <= |s|
    ensures Load(s, at, w) == Big(s[at..at + (match w case W8 => 1 case W16 => 2 case W32 => 4)])
  {
    BigOfOneMore([], s[at]);
    match w
    case W8 => assert s[at..at + 1] == [] + [s[at]];
    case W16 =>
      BigOfOneMore([] + [s[at]], s[at + 1]);
      assert s[at..at + 2] == [] + [s[at]] + [s[at + 1]];
    case W32 =>
      hide Join;
      BigOfOneMore([] + [s[at]], s[at + 1]);
      BigOfOneMore([] + [s[at]] + [s[at + 1]], s[at + 2]);
      BigOfOneMore([] + [s[at]] + [s[at + 1]] + [s[at + 2]], s[at + 3]);
      assert s[at..at + 4] == [] + [s[at]] + [s[at + 1]] + [s[at + 2]] + [s[at + 3]];
  }

  lemma LoadU64IsBig(d: seq<byte>)
    requires |d| == 8
    ensures N.LoadU64(d, 0) == Big(d)
  {
    assert d == d[..4] + d[4..] && d[4..] == d[4..8] && d[..4] == d[0..4];
    LoadIsBig(d, 0, W32);
    LoadIsBig(d, 4, W32);
    hide Load, Big;
    BigOfSum(d[..4], d[4..]);
    assert Power256(4) == 0x1_0000_0000;
  }

  lemma BigOfBigEndian(n: nat, w: Width)
    requires n < w.Limit()
    ensures Big(BigEndian(n, w)) == n
  {
    var s := BigEndian(n, w);
    BigOfOneMore([], s[0]);
    match w
    case W8 =>
    case W16 =>
      assert s == [] + [s[0]] + [s[1]];
      TwoDigits(n, s[0], s[1]);
      BigOfOneMore([] + [s[0]], s[1]);
    case W32 =>
      assert s == [] + [s[0]] + [s[1]] + [s[2]] + [s[3]] == [s[0], s[1], s[2], s[3]];
      Digits(n, s[0], s[1], s[2], s[3]);
      hide BigEndian;
      BigOfOneMore([] + [s[0]], s[1]);
      BigOfOneMore([] + [s[0]] + [s[1]], s[2]);
      BigOfOneMore([] + [s[0]] + [s[1]] + [s[2]], s[3]);
  }

  /** The head of an object, whatever follows. */
  ghost predicate HeadReads(o: Obj, t: seq<byte>)
    requires WellFormed(o) && Standard(o)
  {
    ReadHead(HeadBytes(o) + t) ==
      if o.FixArr? || o.Arr? then Collection(false, |o.items|, t)
      else if o.FixMap? || o.Map? then Collection(true, |o.items|, t)
      else Scalar(ValueOf(o), t)
  }

  lemma FixedHeadReads(o: Obj, t: seq<byte>)
    requires WellFormed(o) && Standard(o) && (o.Single? || o.FixStr? || o.FixArr? || o.FixMap?)
    ensures HeadReads(o, t)
  {
    var s := HeadBytes(o) + t;
    if o.FixStr? {
      assert s[1..1 + |o.data|] == o.data && s[1 + |o.data|..] == t;
    } else {
      assert s[1..] == t;
    }
  }

  lemma NumberHeadReads(o: Obj, t: seq<byte>)
    requires WellFormed(o) && Standard(o) && o.Number?
    ensures HeadReads(o, t)
  {
    var s := HeadBytes(o) + t;
    assert s[1..1 + |o.data|] == o.data && s[1 + |o.data|..] == t;
    hide Big, Signed;
  }

  lemma FixExtHeadReads(o: Obj, t: seq<byte>)
    requires WellFormed(o) && Standard(o) && o.FixExt?
    ensures HeadReads(o, t)
  {
    var s := HeadBytes(o) + t;
    assert s[2..2 + |o.data|] == o.data && s[2 + |o.data|..] == t;
  }

  lemma LongParts(s: seq<byte>, c: byte, field: seq<byte>, data: seq<byte>, t: seq<byte>)
    requires s == [c] + field + data + t
    ensures s[1..1 + |field|] == field && s[1 + |field|..1 + |field| + |data|] == data && s[1 + |field| + |data|..] == t
  {
  }

  lemma StrHeadReads(o: Obj, t: seq<byte>)
    requires WellFormed(o) && Standard(o) && o.Str?
    ensures HeadReads(o, t)
  {
    var field := BigEndian(|o.data|, o.w);
    BigOfBigEndian(|o.data|, o.w);
    var s := HeadBytes(o) + t;
    hide BigEndian, Big;
    LongParts(s, s[0], field, o.data, t);
  }

  lemma BinHeadReads(o: Obj, t: seq<byte>)
    requires WellFormed(o) && Standard(o) && o.Bin?
    ensures HeadReads(o, t)
  {
    var field := BigEndian(|o.data|, o.w);
    BigOfBigEndian(|o.data|, o.w);
    var s := HeadBytes(o) + t;
    hide BigEndian, Big;
    LongParts(s, s[0], field, o.data, t);
  }

  lemma ExtHeadReads(o: Obj, t: seq<byte>)
    requires WellFormed(o) && Standard(o) && o.Ext?
    ensures HeadReads(o, t)
  {
    var field := BigEndian(|o.data|, o.w);
    BigOfBigEndian(|o.data|, o.w);
    var s := HeadBytes(o) + t;
    assert |field| == 1 || |field| == 2 || |field| == 4;
    hide BigEndian, Big;
    assert s == [0xc7 + o.w.Index()] + field + [o.tag] + o.data + t;
    LongParts(s, s[0], field, [o.tag], o.data + t);
    LongParts(s, s[0], field + [o.tag], o.data, t);
    assert s[1 + |field|..2 + |field|][0] == o.tag;
  }

  lemma CountHeadReads(o: Obj, t: seq<byte>)
    requires WellFormed(o) && Standard(o) && (o.Arr? || o.Map?)
    ensures HeadReads(o, t)
  {
    var n := if o.Map? then |o.items| / 2 else |o.items|;
    var field := BigEndian(n, o.w);
    BigOfBigEndian(n, o.w);
    var s := HeadBytes(o) + t;
    hide BigEndian, Big;
    assert s == [s[0]] + field + t;
    assert s[1..1 + |field|] == field && s[1 + |field|..] == t;
  }

  lemma EveryHeadReads(o: Obj, t: seq<byte>)
    requires WellFormed(o) && Standard(o)
    ensures WellFormedHead(o) && HeadReads(o, t)
  {
    hide HeadReads, Standard, HeadBytes;
    match o
    case Number(_, _) => NumberHeadReads(o, t);
    case FixExt(_, _) => FixExtHeadReads(o, t);
    case Str(_, _) => StrHeadReads(o, t);
    case Bin(_, _) => BinHeadReads(o, t);
    case Ext(_, _, _) => ExtHeadReads(o, t);
    case Arr(_, _) => CountHeadReads(o, t);
    case Map(_, _) => CountHeadReads(o, t);
    case WrappedMap(_, _) => NotWrapped(o);
    case _ => FixedHeadReads(o, t);
  }

  lemma NotWrapped(o: Obj)
    requires o.WrappedMap?
    ensures !Standard(o)
  {
  }

  // ----- the round trip

  lemma ReadScalar(s: seq<byte>, v: Value, t: seq<byte>)
    requires s != [] && ReadHead(s) == Scalar(v, t) && |t| < |s|
    ensures Read(s) == Some((v, t))
  {
    hide ReadHead;
  }

  lemma ReadCollection(s: seq<byte>, pairs: bool, count: nat, rest: seq<byte>, items: seq<Value>, t: seq<byte>)
    requires s != [] && ReadHead(s) == Collection(pairs, count, rest) && |rest| < |s|
    requires ReadMany(rest, count) == Some((items, t))
    ensures Read(s) == Some((if pairs then Dict(items) else List(items), t))
  {
    hide ReadHead, ReadMany;
  }

  predicate IsList(o: Obj) { o.FixArr? || o.Arr? }

  predicate IsDict(o: Obj) { o.FixMap? || o.Map? }

  lemma ItemsAreObjects(o: Obj)
    requires WellFormed(o) && Standard(o) && (IsList(o) || IsDict(o))
    ensures AllWellFormed(o.items) && forall x :: x in o.items ==> Standard(x)
  {
    assert o.Children() == o.items;
  }

  lemma CollectionMeans(o: Obj)
    requires WellFormed(o) && Standard(o) && (IsList(o) || IsDict(o))
    ensures AllWellFormed(o.items) && forall x :: x in o.items ==> Standard(x)
    ensures ValueOf(o) == if IsDict(o) then Dict(ValuesOf(o.items)) else List(ValuesOf(o.items))
  {
    hide WellFormed, AllWellFormed, Standard, ValuesOf;
    ItemsAreObjects(o);
  }

  /** Whatever follows, reading the encoding of an object gives what it means and stops behind it. */
  lemma {:induction false} ReadsBack(o: Obj, t: seq<byte>)
    requires WellFormed(o) && Standard(o)
    ensures Read(Encode(o) + t) == Some((ValueOf(o), t))
    decreases o, 0
  {
    hide WellFormed, Standard, Encode, ReadHead, HeadBytes, EncodeAll, WellFormedHead, ReadMany, Read, ValueOf,
         ValuesOf, StandardHead;
    EncodeUnfolds(o);
    var items := o.Children();
    var s := Encode(o) + t;
    EveryHeadReads(o, EncodeAll(items) + t);
    var rest := EncodeAll(items) + t;
    assert s == HeadBytes(o) + rest;
    if IsList(o) || IsDict(o) {
      CollectionMeans(o);
      ReadsAllBack(items, t);
      ReadCollection(s, IsDict(o), |items|, rest, ValuesOf(items), t);
    } else {
      if o.WrappedMap? { NotWrapped(o); }
      NothingEncoded();
      assert items == [] && rest == t;
      ReadScalar(s, ValueOf(o), t);
    }
  }

  lemma NothingEncoded()
    ensures EncodeAll([]) == []
  {
  }

  lemma {:induction false} ReadsAllBack(objs: seq<Obj>, t: seq<byte>)
    requires AllWellFormed(objs) && forall o :: o in objs ==> Standard(o)
    ensures ReadMany(EncodeAll(objs) + t, |objs|) == Some((ValuesOf(objs), t))
    decreases objs, 1
  {
    hide Encode, Read;
    if objs == [] {
      assert EncodeAll(objs) + t == t;
    } else {
      ReadsAllBack(objs[1..], t);
      var rest := EncodeAll(objs[1..]) + t;
      ReadsBack(objs[0], rest);
      assert EncodeAll(objs) + t == Encode(objs[0]) + rest;
    }
  }
}

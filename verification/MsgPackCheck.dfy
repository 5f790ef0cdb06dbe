/** mp_check, mp_next and mp_next_slowpath: loops with one counter of pending objects, and the
    proof that they recognise exactly the recursive grammar. */
module MsgPackCheck {
  import opened Basics
  import opened MsgPackGrammar

  const HINT: int := -32
  const HINT_STR_8 := HINT
  const HINT_STR_16 := HINT - 1
  const HINT_STR_32 := HINT - 2
  const HINT_ARRAY_16 := HINT - 3
  const HINT_ARRAY_32 := HINT - 4
  const HINT_MAP_16 := HINT - 5
  const HINT_MAP_32 := HINT - 6
  const HINT_EXT_8 := HINT - 7
  const HINT_EXT_16 := HINT - 8
  const HINT_EXT_32 := HINT - 9

  /** mp_parser_hint, row by row */
  function ParserHint(c: byte): int {
    if c <= 0x7f then 0
    else if c <= 0x8f then -2 * (c - 0x80)
    else if c <= 0x9f then -(c - 0x90)
    else if c <= 0xbf then c - 0xa0
    else match c
      case 0xc0 => 0 case 0xc1 => 0 case 0xc2 => 0 case 0xc3 => 0
      case 0xc4 => HINT_STR_8 case 0xc5 => HINT_STR_16 case 0xc6 => HINT_STR_32
      case 0xc7 => HINT_EXT_8 case 0xc8 => HINT_EXT_16 case 0xc9 => HINT_EXT_32
      case 0xca => 4 case 0xcb => 8
      case 0xcc => 1 case 0xcd => 2 case 0xce => 4 case 0xcf => 8
      case 0xd0 => 1 case 0xd1 => 2 case 0xd2 => 4 case 0xd3 => 8
      case 0xd4 => 2 case 0xd5 => 3 case 0xd6 => 5 case 0xd7 => 9 case 0xd8 => 17
      case 0xd9 => HINT_STR_8 case 0xda => HINT_STR_16 case 0xdb => HINT_STR_32
      case 0xdc => HINT_ARRAY_16 case 0xdd => HINT_ARRAY_32
      case 0xde => HINT_MAP_16 case 0xdf => HINT_MAP_32
      case _ => 0
  }

  /** What one turn of the loop does: the bytes it passes and the objects it adds to the count. */
  datatype Turn = Short | Turn(len: nat, children: nat)

  function Field(w: Width): nat {
    match w case W8 => 1 case W16 => 2 case W32 => 4
  }

  /** A length field, `extra` further header bytes, and the payload. */
  function Blob(buf: seq<byte>, pos: nat, w: Width, extra: nat): Turn
    requires pos < |buf|
  {
    if |buf| - (pos + 1) < Field(w) + extra then Short
    else
      var n := Load(buf, pos + 1, w);
      if |buf| - (pos + 1 + Field(w) + extra) < n then Short else Turn(1 + Field(w) + extra + n, 0)
  }

  /** A count field; a 32-bit map count is doubled in 32 bits. */
  function Counted(buf: seq<byte>, pos: nat, w: Width, isMap: bool): Turn
    requires pos < |buf|
  {
    if |buf| - (pos + 1) < Field(w) then Short
    else
      var n := Load(buf, pos + 1, w);
      Turn(1 + Field(w), if isMap then 2 * n % 0x1_0000_0000 else n)
  }

  function TurnAt(buf: seq<byte>, pos: nat): (t: Turn)
    requires pos <= |buf|
    ensures t.Turn? ==> 0 < t.len <= |buf| - pos
  {
    if pos == |buf| then Short
    else
      var l := ParserHint(buf[pos]);
      if l >= 0 then (if |buf| - (pos + 1) < l then Short else Turn(1 + l, 0))
      else if l > HINT then Turn(1, -l)
      else if l == HINT_STR_8 then Blob(buf, pos, W8, 0)
      else if l == HINT_STR_16 then Blob(buf, pos, W16, 0)
      else if l == HINT_STR_32 then Blob(buf, pos, W32, 0)
      else if l == HINT_ARRAY_16 then Counted(buf, pos, W16, false)
      else if l == HINT_ARRAY_32 then Counted(buf, pos, W32, false)
      else if l == HINT_MAP_16 then Counted(buf, pos, W16, true)
      else if l == HINT_MAP_32 then Counted(buf, pos, W32, true)
      else if l == HINT_EXT_8 then Blob(buf, pos, W8, 1)
      else if l == HINT_EXT_16 then Blob(buf, pos, W16, 1)
      else Blob(buf, pos, W32, 1)
  }

  /** Where k objects from pos on end, if the buffer reaches that far. */
  function Skip(buf: seq<byte>, pos: nat, k: nat): (end: Option<nat>)
    requires pos <= |buf|
    ensures end.Some? ==> pos <= end.value <= |buf|
    decreases |buf| - pos
  {
    if k == 0 then Some(pos)
    else
      match TurnAt(buf, pos)
      case Short => None
      case Turn(len, children) => Skip(buf, pos + len, k - 1 + children)
  }

  // ----- everything the grammar produces is accepted

  ghost predicate StartsAt(h: seq<byte>, buf: seq<byte>, pos: nat) {
    pos + |h| <= |buf| && buf[pos..pos + |h|] == h
  }

  lemma SplitStart(h: seq<byte>, t: seq<byte>, buf: seq<byte>, pos: nat)
    requires StartsAt(h + t, buf, pos)
    ensures StartsAt(h, buf, pos) && StartsAt(t, buf, pos + |h|)
  {
    var x := buf[pos..pos + |h| + |t|];
    assert x == h + t;
    assert x[..|h|] == h && x[|h|..] == t;
  }

  lemma FieldOf(buf: seq<byte>, pos: nat, h: seq<byte>, n: nat, w: Width)
    requires n < w.Limit() && |h| >= 1 + Field(w) && StartsAt(h, buf, pos) && h[1..1 + Field(w)] == BigEndian(n, w)
    ensures Load(buf, pos + 1, w) == n && buf[pos] == h[0]
  {
    hide Load, BigEndian;
    assert h == [h[0]] + h[1..1 + Field(w)] + h[1 + Field(w)..];
    SplitStart([h[0]], h[1..1 + Field(w)] + h[1 + Field(w)..], buf, pos);
    SplitStart(h[1..1 + Field(w)], h[1 + Field(w)..], buf, pos + 1);
    LoadInverts(buf, pos + 1, n, w);
  }

  lemma TurnOfFixed(buf: seq<byte>, pos: nat, o: Obj)
    requires WellFormedHead(o) && StartsAt(HeadBytes(o), buf, pos)
    requires o.Single? || o.Number? || o.FixStr? || o.FixExt? || o.FixArr? || o.FixMap?
    ensures TurnAt(buf, pos) == Turn(|HeadBytes(o)|, |o.Children()|)
  {
    hide Load, BigEndian, Blob, Counted;
    assert buf[pos] == HeadBytes(o)[0];
  }

  lemma TurnOfBlob(buf: seq<byte>, pos: nat, o: Obj)
    requires WellFormedHead(o) && StartsAt(HeadBytes(o), buf, pos) && (o.Str? || o.Bin? || o.Ext?)
    ensures TurnAt(buf, pos) == Turn(|HeadBytes(o)|, |o.Children()|)
  {
    hide Load, BigEndian, Counted;
    var h := HeadBytes(o);
    FieldOf(buf, pos, h, |o.data|, o.w);
  }

  lemma TurnOfCounted(buf: seq<byte>, pos: nat, o: Obj)
    requires WellFormedHead(o) && StartsAt(HeadBytes(o), buf, pos) && (o.Arr? || o.Map? || o.WrappedMap?)
    ensures TurnAt(buf, pos) == Turn(|HeadBytes(o)|, |o.Children()|)
  {
    hide Load, BigEndian, Blob;
    var h := HeadBytes(o);
    if o.WrappedMap? {
      FieldOf(buf, pos, h, o.count, W32);
    } else {
      FieldOf(buf, pos, h, if o.Map? then |o.items| / 2 else |o.items|, o.w);
    }
  }

  /** At the start of an encoding the loop reads exactly its head and counts its children. */
  lemma TurnOfEncoding(buf: seq<byte>, pos: nat, o: Obj)
    requires WellFormedHead(o) && StartsAt(HeadBytes(o), buf, pos)
    ensures TurnAt(buf, pos) == Turn(|HeadBytes(o)|, |o.Children()|)
  {
    hide TurnAt, HeadBytes, WellFormedHead, StartsAt;
    if o.Str? || o.Bin? || o.Ext? {
      TurnOfBlob(buf, pos, o);
    } else if o.Arr? || o.Map? || o.WrappedMap? {
      TurnOfCounted(buf, pos, o);
    } else {
      TurnOfFixed(buf, pos, o);
    }
  }

  /** The first object's head comes first, then its children with the objects that follow. */
  lemma EncodeAllByHead(objs: seq<Obj>)
    requires AllWellFormed(objs) && objs != []
    ensures var rest := objs[0].Children() + objs[1..];
            WellFormedHead(objs[0]) && AllWellFormed(rest) && EncodeAll(objs) == HeadBytes(objs[0]) + EncodeAll(rest)
  {
    hide HeadBytes, Encode, EncodeAll, WellFormed, WellFormedHead, AllWellFormed;
    FirstAndRest(objs);
    EncodeUnfolds(objs[0]);
    EncodeAllOfSum(objs[0].Children(), objs[1..]);
    assert HeadBytes(objs[0]) + EncodeAll(objs[0].Children()) + EncodeAll(objs[1..])
        == HeadBytes(objs[0]) + (EncodeAll(objs[0].Children()) + EncodeAll(objs[1..]));
  }

  lemma FirstAndRest(objs: seq<Obj>)
    requires AllWellFormed(objs) && objs != []
    ensures WellFormed(objs[0]) && AllWellFormed(objs[1..]) && EncodeAll(objs) == Encode(objs[0]) + EncodeAll(objs[1..])
  {
    hide Encode, WellFormed;
  }

  /** The loop passes over encodings object by object. */
  lemma {:induction false} PassesEncodings(buf: seq<byte>, pos: nat, objs: seq<Obj>, k: nat)
    requires pos <= |buf| && AllWellFormed(objs) && |objs| <= k && StartsAt(EncodeAll(objs), buf, pos)
    ensures Skip(buf, pos, k) == Skip(buf, pos + |EncodeAll(objs)|, k - |objs|)
    decreases |EncodeAll(objs)|
  {
    hide HeadBytes, Encode, TurnAt, WellFormed, WellFormedHead;
    if objs != [] {
      EncodeAllByHead(objs);
      var h, rest := HeadBytes(objs[0]), objs[0].Children() + objs[1..];
      hide EncodeAll;
      SplitStart(h, EncodeAll(rest), buf, pos);
      hide StartsAt;
      TurnOfEncoding(buf, pos, objs[0]);
      PassesEncodings(buf, pos + |h|, rest, k - 1 + |objs[0].Children()|);
    }
  }

  // ----- everything that is accepted the grammar produces

  lemma FieldBytes(buf: seq<byte>, pos: nat, w: Width)
    requires pos + Field(w) <= |buf|
    ensures buf[pos..pos + Field(w)] == BigEndian(Load(buf, pos, w), w)
  {
    LoadInverts(buf, pos, Load(buf, pos, w), w);
  }

  lemma BlobHead(buf: seq<byte>, pos: nat, w: Width, extra: nat) returns (data: seq<byte>)
    requires pos < |buf| && Blob(buf, pos, w, extra).Turn? && extra <= 1
    ensures |data| < w.Limit() && data == buf[pos + 1 + Field(w) + extra..pos + Blob(buf, pos, w, extra).len]
    ensures buf[pos..pos + Blob(buf, pos, w, extra).len]
         == [buf[pos]] + BigEndian(|data|, w) + buf[pos + 1 + Field(w)..pos + 1 + Field(w) + extra] + data
  {
    hide Load, BigEndian;
    var n := Load(buf, pos + 1, w);
    FieldBytes(buf, pos + 1, w);
    var p := pos + 1 + Field(w);
    var end := p + extra + n;
    data := buf[p + extra..end];
    FourParts(buf, pos, p, p + extra, end);
  }

  lemma FourParts(buf: seq<byte>, a: nat, b: nat, c: nat, d: nat)
    requires a < b <= c <= d <= |buf|
    ensures buf[a..d] == [buf[a]] + buf[a + 1..b] + buf[b..c] + buf[c..d]
  {
  }

  lemma CutAt(buf: seq<byte>, a: nat, b: nat, c: nat)
    requires a <= b <= c <= |buf|
    ensures buf[a..c] == buf[a..b] + buf[b..c]
  {
  }

  function BlobWidth(c: byte): Width {
    if c == 0xc4 || c == 0xc7 || c == 0xd9 then W8 else if c == 0xc5 || c == 0xc8 || c == 0xda then W16 else W32
  }

  lemma TurnIsBlob(buf: seq<byte>, pos: nat)
    requires pos < |buf| && (0xc4 <= buf[pos] <= 0xc9 || 0xd9 <= buf[pos] <= 0xdb)
    ensures TurnAt(buf, pos) == Blob(buf, pos, BlobWidth(buf[pos]), if 0xc7 <= buf[pos] <= 0xc9 then 1 else 0)
  {
    hide Blob, Counted;
  }

  lemma BuildBlob(buf: seq<byte>, pos: nat) returns (o: Obj)
    requires pos < |buf| && TurnAt(buf, pos).Turn? && (0xc4 <= buf[pos] <= 0xc9 || 0xd9 <= buf[pos] <= 0xdb)
    ensures WellFormedHead(o) && o.Children() == [] && TurnAt(buf, pos).children == 0
    ensures HeadBytes(o) == buf[pos..pos + TurnAt(buf, pos).len]
  {
    hide TurnAt, BigEndian, Load;
    var c := buf[pos];
    var w, extra := BlobWidth(c), if 0xc7 <= c <= 0xc9 then 1 else 0;
    TurnIsBlob(buf, pos);
    var data := BlobHead(buf, pos, w, extra);
    var mid := buf[pos + 1 + Field(w)..pos + 1 + Field(w) + extra];
    assert mid == if extra == 1 then [buf[pos + 1 + Field(w)]] else [];
    assert extra == 0 ==> [c] + BigEndian(|data|, w) + mid == [c] + BigEndian(|data|, w);
    o := if c <= 0xc6 then Bin(w, data) else if c <= 0xc9 then Ext(w, buf[pos + 1 + Field(w)], data) else Str(w, data);
  }

  lemma CountedHead(buf: seq<byte>, pos: nat, w: Width, isMap: bool) returns (n: nat)
    requires pos < |buf| && Counted(buf, pos, w, isMap).Turn?
    ensures n < w.Limit()
    ensures Counted(buf, pos, w, isMap) == Turn(1 + Field(w), if isMap then 2 * n % 0x1_0000_0000 else n)
    ensures pos + 1 + Field(w) <= |buf| && buf[pos..pos + 1 + Field(w)] == [buf[pos]] + BigEndian(n, w)
  {
    hide Load, BigEndian;
    n := Load(buf, pos + 1, w);
    FieldBytes(buf, pos + 1, w);
    CutAt(buf, pos, pos + 1, pos + 1 + Field(w));
    assert buf[pos..pos + 1] == [buf[pos]];
  }

  lemma BuildCounted(buf: seq<byte>, pos: nat, items: seq<Obj>) returns (o: Obj)
    requires pos < |buf| && TurnAt(buf, pos).Turn? && 0xdc <= buf[pos] <= 0xdf && |items| == TurnAt(buf, pos).children
    ensures WellFormedHead(o) && o.Children() == items
    ensures HeadBytes(o) == buf[pos..pos + TurnAt(buf, pos).len]
  {
    hide Load, BigEndian, Counted, Blob;
    var c := buf[pos];
    var w := if c == 0xdc || c == 0xde then W16 else W32;
    var n := CountedHead(buf, pos, w, c >= 0xde);
    o := if c <= 0xdd then Arr(w, items)
         else if n < 0x8000_0000 then Map(w, items) else WrappedMap(n, items);
  }

  lemma FixedTurn(buf: seq<byte>, pos: nat)
    requires pos < |buf| && TurnAt(buf, pos).Turn? && ParserHint(buf[pos]) > HINT
    ensures TurnAt(buf, pos) == if ParserHint(buf[pos]) >= 0 then Turn(1 + ParserHint(buf[pos]), 0)
        else Turn(1, -ParserHint(buf[pos]))
    ensures var len := TurnAt(buf, pos).len; buf[pos..pos + len] == [buf[pos]] + buf[pos + 1..pos + len]
  {
    hide Blob, Counted, ParserHint;
  }

  lemma BuildFixed(buf: seq<byte>, pos: nat, items: seq<Obj>) returns (o: Obj)
    requires pos < |buf| && TurnAt(buf, pos).Turn? && |items| == TurnAt(buf, pos).children
    requires !(0xc4 <= buf[pos] <= 0xc9 || 0xd9 <= buf[pos] <= 0xdf)
    ensures WellFormedHead(o) && o.Children() == items
    ensures HeadBytes(o) == buf[pos..pos + TurnAt(buf, pos).len]
  {
    hide Blob, Counted, TurnAt;
    var c, len := buf[pos], TurnAt(buf, pos).len;
    FixedTurn(buf, pos);
    var data := buf[pos + 1..pos + len];
    if 0x80 <= c <= 0x8f {
      o := FixMap(items);
    } else if 0x90 <= c <= 0x9f {
      o := FixArr(items);
    } else {
      o := BuildScalar(c, data);
    }
  }

  lemma BuildScalar(c: byte, data: seq<byte>) returns (o: Obj)
    requires |data| == ParserHint(c) && !(0x80 <= c <= 0x9f)
    requires !(0xc4 <= c <= 0xc9 || 0xd9 <= c <= 0xdf)
    ensures WellFormedHead(o) && o.Children() == [] && HeadBytes(o) == [c] + data
  {
    if 0xa0 <= c <= 0xbf {
      o := FixStr(data);
    } else if 0xca <= c <= 0xd3 {
      o := Number(c, data);
    } else if 0xd4 <= c <= 0xd8 {
      o := FixExt(data[0], data[1..]);
      assert [c, data[0]] + data[1..] == [c] + data;
    } else {
      o := Single(c);
    }
  }

  /** The objects the loop passed over. */
  lemma {:induction false} Parse(buf: seq<byte>, pos: nat, k: nat, end: nat) returns (objs: seq<Obj>)
    requires pos <= |buf| && Skip(buf, pos, k) == Some(end)
    ensures |objs| == k && AllWellFormed(objs) && EncodeAll(objs) == buf[pos..end]
    decreases |buf| - pos
  {
    hide HeadBytes, Encode, TurnAt, WellFormedHead, WellFormed;
    if k == 0 {
      objs := [];
    } else {
      var t := TurnAt(buf, pos);
      var rest := Parse(buf, pos + t.len, k - 1 + t.children, end);
      var items, after := rest[..t.children], rest[t.children..];
      var o := BuildHead(buf, pos, items);
      objs := [o] + after;
      assert rest == items + after;
      assert objs[0].Children() + objs[1..] == rest;
      EncodeAllByHead(objs);
      CutAt(buf, pos, pos + t.len, end);
    }
  }

  lemma BuildHead(buf: seq<byte>, pos: nat, items: seq<Obj>) returns (o: Obj)
    requires pos < |buf| && TurnAt(buf, pos).Turn? && |items| == TurnAt(buf, pos).children && AllWellFormed(items)
    ensures WellFormed(o) && o.Children() == items
    ensures WellFormedHead(o) && HeadBytes(o) == buf[pos..pos + TurnAt(buf, pos).len]
  {
    hide HeadBytes, TurnAt, WellFormedHead;
    if 0xc4 <= buf[pos] <= 0xc9 || 0xd9 <= buf[pos] <= 0xdb {
      o := BuildBlob(buf, pos);
    } else if 0xdc <= buf[pos] <= 0xdf {
      o := BuildCounted(buf, pos, items);
    } else {
      o := BuildFixed(buf, pos, items);
    }
  }

  lemma AcceptsEncoding(buf: seq<byte>, n: nat, o: Obj)
    requires n <= |buf| && WellFormed(o) && Encode(o) == buf[..n]
    ensures Skip(buf, 0, 1) == Some(n)
  {
    hide Encode, WellFormed;
    assert EncodeAll([o]) == Encode(o) + EncodeAll([]);
    PassesEncodings(buf, 0, [o], 1);
  }

  lemma AcceptedIsEncoding(buf: seq<byte>, end: nat)
    ensures Skip(buf, 0, 1) == Some(end) ==> exists o :: WellFormed(o) && Encode(o) == buf[..end]
  {
    hide Encode, WellFormed, Skip;
    if Skip(buf, 0, 1) == Some(end) {
      var objs := Parse(buf, 0, 1, end);
      var o := objs[0];
      assert EncodeAll(objs) == Encode(o) + EncodeAll([]);
      assert WellFormed(o) && Encode(o) == buf[..end];
    }
  }

  /** The counting loop stops at end exactly when the bytes up to there are one object. */
  lemma AcceptsExactlyTheGrammar(buf: seq<byte>, end: nat)
    ensures Skip(buf, 0, 1) == Some(end) <==>
            end <= |buf| && exists o :: WellFormed(o) && Encode(o) == buf[..end]
  {
    hide Encode, WellFormed, Skip;
    AcceptedIsEncoding(buf, end);
    if end <= |buf| {
      forall o | WellFormed(o) && Encode(o) == buf[..end] ensures Skip(buf, 0, 1) == Some(end) {
        AcceptsEncoding(buf, end, o);
      }
    }
  }

  // ----- the loops

  /** One turn of mp_check: the byte at the cursor, its hint, and the switch on the hints that
      need a length or count field. Short stands for the returns of MP_CHECK_LEN. */
  method CheckTurn(buf: seq<byte>, data: nat, k: int) returns (ok: bool, data': nat, k': int)
    requires data <= |buf|
    ensures ok == TurnAt(buf, data).Turn?
    ensures ok ==> data' == data + TurnAt(buf, data).len <= |buf| && k' == k + TurnAt(buf, data).children
  {
    data', k' := data, k;
    if |buf| - data < 1 { return false, data', k'; }
    var c := buf[data];
    var l := ParserHint(c);
    data' := data + 1;
    if l >= 0 {
      if |buf| - data' < l { return false, data', k'; }
      return true, data' + l, k';
    } else if l > HINT {
      return true, data', k' - l;
    }
    if l == HINT_ARRAY_16 || l == HINT_ARRAY_32 || l == HINT_MAP_16 || l == HINT_MAP_32 {
      var w := if l == HINT_ARRAY_16 || l == HINT_MAP_16 then W16 else W32;
      if |buf| - data' < Field(w) { return false, data', k'; }
      var n := Load(buf, data', w);
      data' := data' + Field(w);
      k' := k' + if l == HINT_MAP_16 || l == HINT_MAP_32 then 2 * n % 0x1_0000_0000 else n;
    } else {
      var w := if l == HINT_STR_8 || l == HINT_EXT_8 then W8 else if l == HINT_STR_16 || l == HINT_EXT_16 then W16
          else W32;
      var extra := if l <= HINT_EXT_8 then 1 else 0;
      if |buf| - data' < Field(w) + extra { return false, data', k'; }
      var len := Load(buf, data', w);
      data' := data' + Field(w) + extra;
      if |buf| - data' < len { return false, data', k'; }
      data' := data' + len;
    }
    ok := true;
  }

  /** mp_check: 0 and the end of the object, or 1. */
  method MpCheck(buf: seq<byte>) returns (result: int, end: nat)
    ensures result == 0 || result == 1
    ensures result == 0 <==> exists n: nat, o :: n <= |buf| && WellFormed(o) && Encode(o) == buf[..n]
    ensures result == 0 ==> end <= |buf| && exists o :: WellFormed(o) && Encode(o) == buf[..end]
    ensures result == 0 ==> Skip(buf, 0, 1) == Some(end)
  {
    var k, data := 1, 0;
    result := 0;
    while k > 0
      invariant 0 <= k && data <= |buf| && result == 0
      invariant Skip(buf, data, k) == Skip(buf, 0, 1)
      decreases |buf| - data, k
    {
      hide TurnAt;
      var ok, data', k' := CheckTurn(buf, data, k);
      if !ok {
        result := 1;
        break;
      }
      data, k := data', k' - 1;
    }
    end := data;
    VerdictMeans(buf, if result == 0 then Some(end) else None);
  }

  lemma VerdictMeans(buf: seq<byte>, verdict: Option<nat>)
    requires Skip(buf, 0, 1) == verdict
    ensures verdict.Some? <==> exists n: nat, o :: n <= |buf| && WellFormed(o) && Encode(o) == buf[..n]
    ensures verdict.Some? ==> verdict.value <= |buf| && exists o :: WellFormed(o) && Encode(o) == buf[..verdict.value]
  {
    hide Encode, WellFormed, Skip;
    if verdict.Some? { AcceptedIsEncoding(buf, verdict.value); }
    forall n: nat, o | n <= |buf| && WellFormed(o) && Encode(o) == buf[..n] ensures verdict.Some? {
      AcceptsEncoding(buf, n, o);
    }
  }

  /** One turn of the skippers. No bound is checked, and none is needed where an object starts. */
  method NextTurn(buf: seq<byte>, data: nat, k: int) returns (data': nat, k': int)
    requires data <= |buf| && TurnAt(buf, data).Turn?
    ensures data' == data + TurnAt(buf, data).len && k' == k + TurnAt(buf, data).children
  {
    var c := buf[data];
    var l := ParserHint(c);
    data', k' := data + 1, k;
    if l >= 0 {
      data' := data' + l;
    } else if l > HINT {
      k' := k' - l;
    } else if l == HINT_ARRAY_16 || l == HINT_ARRAY_32 || l == HINT_MAP_16 || l == HINT_MAP_32 {
      var w := if l == HINT_ARRAY_16 || l == HINT_MAP_16 then W16 else W32;
      var n := Load(buf, data', w);
      data' := data' + Field(w);
      k' := k' + if l == HINT_MAP_16 || l == HINT_MAP_32 then 2 * n % 0x1_0000_0000 else n;
    } else {
      var w := if l == HINT_STR_8 || l == HINT_EXT_8 then W8 else if l == HINT_STR_16 || l == HINT_EXT_16 then W16
          else W32;
      var extra := if l <= HINT_EXT_8 then 1 else 0;
      data' := data' + Field(w) + extra + Load(buf, data', w);
    }
  }

  /** mp_next_slowpath: stops where mp_check would, reading only inside the objects. */
  method MpNextSlowpath(buf: seq<byte>, data: nat, k: nat) returns (end: nat)
    requires data <= |buf| && Skip(buf, data, k).Some?
    ensures Skip(buf, data, k) == Some(end)
  {
    hide TurnAt;
    var left: int := k;
    end := data;
    while left > 0
      invariant 0 <= left && end <= |buf| && Skip(buf, end, left) == Skip(buf, data, k)
      decreases |buf| - end, left
    {
      end, left := NextTurn(buf, end, left);
      left := left - 1;
    }
  }

  /** mp_next: short forms at once, everything else from the slow path on. */
  method MpNext(buf: seq<byte>, data: nat) returns (end: nat)
    requires data <= |buf| && Skip(buf, data, 1).Some?
    ensures Skip(buf, data, 1) == Some(end)
  {
    var k: int := 1;
    end := data;
    while k > 0
      invariant 0 <= k && end <= |buf| && Skip(buf, end, k) == Skip(buf, data, 1)
      decreases |buf| - end, k
    {
      assert TurnAt(buf, end).Turn?;
      var c := buf[end];
      var l := ParserHint(c);
      if l >= 0 {
        end, k := end + 1 + l, k - 1;
      } else if c == 0xd9 {
        end, k := end + 2 + Load(buf, end + 1, W8), k - 1;
      } else if l > HINT {
        end, k := end + 1, k - l - 1;
      } else {
        end := MpNextSlowpath(buf, end, k);
        return;
      }
    }
  }

  // ----- where what is accepted is not MessagePack

  /** The byte at pos starts a map whose count does not survive doubling in 32 bits. */
  predicate HugeMapAt(buf: seq<byte>, pos: nat) {
    pos + 5 <= |buf| && buf[pos] == 0xdf && Load(buf, pos + 1, W32) >= 0x8000_0000
  }

  /** The byte at pos starts no object of the specification: the byte no format uses, or a huge map. */
  predicate NonStandardAt(buf: seq<byte>, pos: nat) {
    pos < |buf| && (buf[pos] == 0xc1 || HugeMapAt(buf, pos))
  }

  /** The loop comes to such a byte where it expects an object. */
  predicate MeetsNonStandard(buf: seq<byte>, pos: nat, k: nat)
    requires pos <= |buf|
    decreases |buf| - pos
  {
    k > 0 && TurnAt(buf, pos).Turn? &&
    (NonStandardAt(buf, pos) || MeetsNonStandard(buf, pos + TurnAt(buf, pos).len, k - 1 + TurnAt(buf, pos).children))
  }

  predicate AllStandard(objs: seq<Obj>) {
    forall o :: o in objs ==> Standard(o)
  }

  lemma NonStandardHead(buf: seq<byte>, pos: nat, o: Obj)
    requires WellFormedHead(o) && StartsAt(HeadBytes(o), buf, pos)
    ensures NonStandardAt(buf, pos) <==> !StandardHead(o)
  {
    var h := HeadBytes(o);
    FirstByteOfHead(o);
    assert h[0] == buf[pos..pos + |h|][0] == buf[pos];
    if o.WrappedMap? {
      FieldOf(buf, pos, h, o.count, W32);
    } else if o.Map? && o.w.W32? {
      FieldOf(buf, pos, h, |o.items| / 2, W32);
    } else {
      hide Load, BigEndian;
    }
  }

  lemma FirstByteOfHead(o: Obj)
    requires WellFormedHead(o)
    ensures HeadBytes(o)[0] == 0xdf <==> o.WrappedMap? || (o.Map? && o.w.W32?)
    ensures o.WrappedMap? ==> |HeadBytes(o)| == 5
    ensures HeadBytes(o)[0] == 0xc1 <==> o == Single(0xc1)
  {
    hide BigEndian;
  }

  lemma {:induction false} NonStandardInEncodings(buf: seq<byte>, pos: nat, objs: seq<Obj>, k: nat)
    requires pos <= |buf| && AllWellFormed(objs) && |objs| <= k && StartsAt(EncodeAll(objs), buf, pos)
    ensures MeetsNonStandard(buf, pos, k)
            <==> !AllStandard(objs) || MeetsNonStandard(buf, pos + |EncodeAll(objs)|, k - |objs|)
    decreases |EncodeAll(objs)|
  {
    hide HeadBytes, Encode, TurnAt, WellFormed, WellFormedHead, NonStandardAt, StandardHead;
    if objs != [] {
      EncodeAllByHead(objs);
      var h, rest := HeadBytes(objs[0]), objs[0].Children() + objs[1..];
      hide EncodeAll;
      SplitStart(h, EncodeAll(rest), buf, pos);
      hide StartsAt;
      TurnOfEncoding(buf, pos, objs[0]);
      NonStandardHead(buf, pos, objs[0]);
      NonStandardInEncodings(buf, pos + |h|, rest, k - 1 + |objs[0].Children()|);
      StandardByHead(objs);
    }
  }

  lemma StandardByHead(objs: seq<Obj>)
    requires objs != []
    ensures AllStandard(objs) <==> StandardHead(objs[0]) && AllStandard(objs[0].Children() + objs[1..])
  {
    var rest := objs[0].Children() + objs[1..];
    assert Standard(objs[0]) <==> StandardHead(objs[0]) && AllStandard(objs[0].Children());
    assert forall o :: o in rest <==> o in objs[0].Children() || o in objs[1..];
    assert forall o :: o in objs <==> o == objs[0] || o in objs[1..];
    hide Standard;
  }

  /** An accepted buffer starts with an object of the MessagePack specification exactly when the
      loop meets neither the unused byte 0xc1 where an object should start nor a map header that
      announces 2^31 pairs or more. */
  lemma StandardExactlyWhen(buf: seq<byte>, end: nat)
    ensures Skip(buf, 0, 1) == Some(end) ==>
              ((exists o :: WellFormed(o) && Standard(o) && Encode(o) == buf[..end]) <==> !MeetsNonStandard(buf, 0, 1))
  {
    hide Encode, WellFormed, Skip;
    if Skip(buf, 0, 1) == Some(end) {
      forall o | WellFormed(o) && Encode(o) == buf[..end] ensures Standard(o) <==> !MeetsNonStandard(buf, 0, 1) {
        assert EncodeAll([o]) == Encode(o) + EncodeAll([]);
        NonStandardInEncodings(buf, 0, [o], 1);
        assert AllStandard([o]) <==> Standard(o);
      }
      AcceptsExactlyTheGrammar(buf, end);
    }
  }

  /** A five-byte buffer that announces 2^31 pairs and holds none is accepted. */
  lemma HugeEmptyMapIsAccepted()
    ensures var buf: seq<byte> := [0xdf, 0x80, 0, 0, 0];
            Skip(buf, 0, 1) == Some(5) && !exists o :: WellFormed(o) && Standard(o) && Encode(o) == buf[..5]
  {
    var buf: seq<byte> := [0xdf, 0x80, 0, 0, 0];
    assert Load(buf, 1, W32) == 0x8000_0000;
    assert TurnAt(buf, 0) == Turn(5, 0);
    assert Skip(buf, 5, 0) == Some(5);
    StandardExactlyWhen(buf, 5);
  }

  /** So is the byte that no format uses, alone or inside an array. */
  lemma UnusedByteIsAccepted()
    ensures var buf: seq<byte> := [0xc1];
            Skip(buf, 0, 1) == Some(1) && !exists o :: WellFormed(o) && Standard(o) && Encode(o) == buf[..1]
    ensures var buf: seq<byte> := [0x92, 0x01, 0xc1];
            Skip(buf, 0, 1) == Some(3) && !exists o :: WellFormed(o) && Standard(o) && Encode(o) == buf[..3]
  {
    var one: seq<byte> := [0xc1];
    assert TurnAt(one, 0) == Turn(1, 0) && Skip(one, 1, 0) == Some(1);
    StandardExactlyWhen(one, 1);
    var two: seq<byte> := [0x92, 0x01, 0xc1];
    assert TurnAt(two, 0) == Turn(1, 2) && TurnAt(two, 1) == Turn(1, 0) && TurnAt(two, 2) == Turn(1, 0);
    assert Skip(two, 3, 0) == Some(3) && Skip(two, 2, 1) == Some(3) && Skip(two, 1, 2) == Some(3);
    assert MeetsNonStandard(two, 2, 1) && MeetsNonStandard(two, 1, 2);
    StandardExactlyWhen(two, 3);
  }
}

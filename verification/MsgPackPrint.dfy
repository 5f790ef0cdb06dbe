/** mp_fprint and mp_snprint: one printing scheme, once into a stream and once into a buffer that
    may be too small. How floating-point numbers are formatted is a parameter. */
module MsgPackPrint {
  import opened Basics
  import opened PowersOfTwo
  import opened MsgPackGrammar
  import opened MsgPackNumbers
  import opened MsgPackParts
  import opened MsgPackCheck

  // ----- The text of an object

  function Decimal(n: nat): string {
    if n < 10 then [(n + '0' as int) as char] else Decimal(n / 10) + Decimal(n % 10)
  }

  function SignedDecimal(n: int): string {
    if n < 0 then "-" + Decimal(-n) else Decimal(n)
  }

  function HexDigit(n: nat): char
    requires n < 16
  {
    if n < 10 then (n + '0' as int) as char else (n - 10 + 'a' as int) as char
  }

  /** mp_char2escape, and the character itself where the table has none */
  function Escape(c: byte): string {
    if c == 0x08 then "\\b" else if c == 0x09 then "\\t" else if c == 0x0a then "\\n"
    else if c == 0x0c then "\\f" else if c == 0x0d then "\\r"
    else if c < 0x20 || c == 0x7f then "\\u00" + [HexDigit(c / 16), HexDigit(c % 16)]
    else if c == 0x22 then "\\\"" else if c == 0x2f then "\\/" else if c == 0x5c then "\\\\"
    else [c as char]
  }

  /** The opening quote and the bytes of d. */
  function QuotedText(d: seq<byte>): string {
    if d == [] then "\"" else QuotedText(d[..|d| - 1]) + Escape(d[|d| - 1])
  }

  type Floats = seq<byte> -> string

  function NumberText(c: byte, d: seq<byte>, floats: Floats): string
    requires 0xca <= c <= 0xd3 && |d| == NumberSize(c)
  {
    match c
    case 0xcc => Decimal(Load(d, 0, W8))
    case 0xcd => Decimal(Load(d, 0, W16))
    case 0xce => Decimal(Load(d, 0, W32))
    case 0xcf => Decimal(LoadU64(d, 0))
    case 0xd0 => SignedDecimal(Signed(Load(d, 0, W8), 0x100))
    case 0xd1 => SignedDecimal(Signed(Load(d, 0, W16), 0x1_0000))
    case 0xd2 => SignedDecimal(Signed(Load(d, 0, W32), TWO32))
    case 0xd3 => SignedDecimal(Signed(LoadU64(d, 0), TWO64))
    case _ => floats([c] + d)
  }

  function Text(o: Obj, floats: Floats): string
    requires WellFormed(o)
    decreases o, 0, 0
  {
    match o
    case Single(c) =>
      if c <= 0x7f then Decimal(c) else if c >= 0xe0 then SignedDecimal(c - 0x100)
      else if c == 0xc0 then "null" else if c == 0xc2 then "false" else if c == 0xc3 then "true" else "undefined"
    case Number(c, d) => NumberText(c, d, floats)
    case FixStr(d) => QuotedText(d) + "\""
    case Str(_, d) => QuotedText(d) + "\""
    case Bin(_, d) => QuotedText(d) + "\""
    case FixExt(_, _) => "undefined"
    case Ext(_, _, _) => "undefined"
    case FixArr(items) => ItemsText(items, |items|, floats) + "]"
    case Arr(_, items) => ItemsText(items, |items|, floats) + "]"
    case FixMap(items) => PairsText(items, |items| / 2, floats) + "}"
    case Map(_, items) => PairsText(items, |items| / 2, floats) + "}"
    case WrappedMap(_, _) => ""
  }

  /** The opening bracket and the first n items. */
  function ItemsText(items: seq<Obj>, n: nat, floats: Floats): string
    requires AllWellFormed(items) && n <= |items|
    decreases items, 1, n
  {
    if n == 0 then "["
    else ItemsText(items, n - 1, floats) + Separator(n - 1) + Text(items[n - 1], floats)
  }

  /** The opening brace and the first n pairs. */
  function PairsText(items: seq<Obj>, n: nat, floats: Floats): string
    requires AllWellFormed(items) && 2 * n <= |items|
    decreases items, 1, n
  {
    if n == 0 then "{"
    else
      PairsText(items, n - 1, floats) + Separator(n - 1)
      + Text(items[2 * n - 2], floats) + ": " + Text(items[2 * n - 1], floats)
  }

  function Separator(i: nat): string { if i > 0 then ", " else "" }

  // ----- Writing into a buffer of limited size

  /** snprintf at a position: as much as fits before a terminating NUL. */
  function Printed(buf: string, at: nat, size: nat, text: string): (r: string)
    requires at + size <= |buf|
    ensures |r| == |buf|
  {
    if size == 0 then buf
    else if |text| < size then buf[..at] + text + ['\0'] + buf[at + |text| + 1..]
    else buf[..at] + text[..size - 1] + ['\0'] + buf[at + size..]
  }

  /** HANDLE: buf and size after `bytes` more; once it is full, buf is NULL and size 0. */
  function Handled(at: nat, size: nat, bytes: nat): (nat, nat) {
    if bytes < size then (at + bytes, size - bytes) else (0, 0)
  }

  /** Printing two texts one after the other is printing them joined. */
  lemma PrintedJoins(buf: string, at: nat, size: nat, s: string, t: string)
    requires at + size <= |buf|
    ensures var (at', size') := Handled(at, size, |s|);
            && at' + size' <= |buf|
                && Printed(Printed(buf, at, size, s), at', size', t) == Printed(buf, at, size, s + t)
            && Handled(at', size', |t|) == Handled(at, size, |s + t|)
  {
    if 0 < size <= |s| {
      assert (s + t)[..size - 1] == s[..size - 1];
    } else if size > 0 {
      PrintedJoinsInside(buf, at, size, s, t);
    }
  }

  lemma PrintedJoinsInside(buf: string, at: nat, size: nat, s: string, t: string)
    requires at + size <= |buf| && |s| < size
    ensures Printed(Printed(buf, at, size, s), at + |s|, size - |s|, t) == Printed(buf, at, size, s + t)
  {
    var once := Printed(buf, at, size, s);
    assert once[..at + |s|] == buf[..at] + s;
    if |s + t| < size {
      assert once[at + |s + t| + 1..] == buf[at + |s + t| + 1..];
    } else {
      assert (s + t)[..size - 1] == s + t[..size - |s| - 1];
      assert once[at + size..] == buf[at + size..];
    }
  }

  // ----- The printing scheme

  /** The branches of the switch on mp_typeof. */
  datatype Case = Plain(text: string) | Quoted(len: nat) | Items(count: nat) | Pairs(count: nat)

  /** The branch taken at pos, with what it decodes, and the position then. */
  function CaseAt(data: seq<byte>, pos: nat, floats: Floats): Option<(Case, nat)>
    requires pos < |data|
  {
    var c, left := data[pos], |data| - pos;
    if c <= 0x7f || 0xcc <= c <= 0xcf then
      var d := DecodeUint(data, pos);
      if d.None? then None else Some((Plain(Decimal(d.value.0)), d.value.1))
    else if c >= 0xe0 || 0xd0 <= c <= 0xd3 then
      var d := DecodeInt(data, pos);
      if d.None? then None else Some((Plain(SignedDecimal(d.value.0)), d.value.1))
    else if c <= 0x8f then Some((Pairs(c - 0x80), pos + 1))
    else if c <= 0x9f then Some((Items(c - 0x90), pos + 1))
    else if c <= 0xbf then Some((Quoted(c - 0xa0), pos + 1))
    else if c == 0xc0 then Some((Plain("null"), pos + 1))
    else if c == 0xc2 || c == 0xc3 then Some((Plain(if c == 0xc3 then "true" else "false"), pos + 1))
    else if (c == 0xc4 || c == 0xd9) && left >= 2 then Some((Quoted(Load(data, pos + 1, W8)), pos + 2))
    else if (c == 0xc5 || c == 0xda) && left >= 3 then Some((Quoted(Load(data, pos + 1, W16)), pos + 3))
    else if (c == 0xc6 || c == 0xdb) && left >= 5 then Some((Quoted(Load(data, pos + 1, W32)), pos + 5))
    else if c == 0xca && left >= 5 then Some((Plain(floats(data[pos..pos + 5])), pos + 5))
    else if c == 0xcb && left >= 9 then Some((Plain(floats(data[pos..pos + 9])), pos + 9))
    else if c == 0xdc && left >= 3 then Some((Items(Load(data, pos + 1, W16)), pos + 3))
    else if c == 0xdd && left >= 5 then Some((Items(Load(data, pos + 1, W32)), pos + 5))
    else if c == 0xde && left >= 3 then Some((Pairs(Load(data, pos + 1, W16)), pos + 3))
    else if c == 0xdf && left >= 5 then Some((Pairs(Load(data, pos + 1, W32)), pos + 5))
    else
      // MP_EXT, to which 0xc1 belongs: mp_next finds the end
      var end := Skip(data, pos, 1);
      if end.None? then None else Some((Plain("undefined"), end.value))
  }

  function CaseOf(o: Obj, floats: Floats): Case
    requires WellFormed(o)
  {
    match o
    case FixStr(d) => Quoted(|d|)
    case Str(_, d) => Quoted(|d|)
    case Bin(_, d) => Quoted(|d|)
    case FixArr(items) => Items(|items|)
    case Arr(_, items) => Items(|items|)
    case FixMap(items) => Pairs(|items| / 2)
    case Map(_, items) => Pairs(|items| / 2)
    case _ => Plain(Text(o, floats))
  }

  /** How far the branch reads before it prints: all of a scalar, the header of the others. */
  function HeaderSize(o: Obj): nat
    requires WellFormed(o)
  {
    if o.FixStr? || o.Str? || o.Bin? then |HeadBytes(o)| - |o.data| else |HeadBytes(o)|
  }

  lemma SkipsOne(data: seq<byte>, pos: nat, o: Obj)
    requires WellFormed(o) && o.Children() == [] && StartsAt(HeadBytes(o), data, pos)
    ensures Skip(data, pos, 1) == Some(pos + |HeadBytes(o)|)
  {
    TurnOfEncoding(data, pos, o);
    var end := pos + |HeadBytes(o)|;
    hide HeadBytes, TurnAt;
    assert Skip(data, end, 0) == Some(end);
  }

  lemma CaseOfSingle(data: seq<byte>, pos: nat, o: Obj, floats: Floats)
    requires WellFormed(o) && o.Single? && StartsAt(HeadBytes(o), data, pos)
    ensures CaseAt(data, pos, floats) == Some((CaseOf(o, floats), pos + HeaderSize(o)))
  {
    assert data[pos] == HeadBytes(o)[0] == o.c;
    if o.c == 0xc1 { SkipsOne(data, pos, o); }
  }

  lemma CaseOfNumber(data: seq<byte>, pos: nat, o: Obj, floats: Floats)
    requires WellFormed(o) && o.Number? && StartsAt(HeadBytes(o), data, pos)
    ensures CaseAt(data, pos, floats) == Some((CaseOf(o, floats), pos + HeaderSize(o)))
  {
    hide Load, Signed, Decimal, SignedDecimal, LoadU64, Skip;
    var c, d := o.c, o.data;
    assert HeadBytes(o) == [c] + d && CaseOf(o, floats) == Plain(NumberText(c, d, floats));
    FirstByte(data, pos, [c] + d);
    SplitStart([c], d, data, pos);
    LoadsAlike(data, pos + 1, d);
    hide StartsAt, HeadBytes, WellFormed, Text;
    assert pos + 1 + |d| <= |data|;
    if c == 0xca || c == 0xcb {
      assert data[pos..pos + 1 + |d|] == [c] + d;
    } else if c <= 0xcf {
      assert DecodeUint(data, pos).Some?;
    } else {
      assert DecodeInt(data, pos).Some?;
    }
  }

  lemma CaseOfFix(data: seq<byte>, pos: nat, o: Obj, floats: Floats)
    requires WellFormed(o) && (o.FixStr? || o.FixArr? || o.FixMap?) && StartsAt(HeadBytes(o), data, pos)
    ensures CaseAt(data, pos, floats) == Some((CaseOf(o, floats), pos + HeaderSize(o)))
  {
    assert data[pos] == HeadBytes(o)[0];
    hide WellFormed, Text, Load, Skip;
  }

  /** The branches for lengths and counts in fields. */
  lemma FieldBranch(data: seq<byte>, pos: nat, w: Width, n: nat, floats: Floats)
    requires pos + 1 + Field(w) <= |data| && Load(data, pos + 1, w) == n
    ensures var next := pos + 1 + Field(w);
            && (data[pos] == 0xd9 + w.Index() || data[pos] == 0xc4 + w.Index() ==>
                CaseAt(data, pos, floats) == Some((Quoted(n), next)))
            && (!w.W8? && data[pos] == 0xdb + w.Index() ==> CaseAt(data, pos, floats) == Some((Items(n), next)))
            && (!w.W8? && data[pos] == 0xdd + w.Index() ==> CaseAt(data, pos, floats) == Some((Pairs(n), next)))
  {
    hide Load, DecodeUint, DecodeInt, Skip;
    match w
    case W8 =>
    case W16 =>
    case W32 =>
  }

  /** The length or count in the header. */
  function InField(o: Obj): nat
    requires o.Str? || o.Bin? || o.Arr? || o.Map?
  {
    if o.Str? || o.Bin? then |o.data| else if o.Arr? then |o.items| else |o.items| / 2
  }

  lemma FieldHead(o: Obj)
    requires WellFormed(o) && (o.Str? || o.Bin? || o.Arr? || o.Map?)
    ensures var h, k := HeadBytes(o), 1 + Field(o.w);
            && h[0] == (if o.Str? then 0xd9 else if o.Bin? then 0xc4 else if o.Arr? then 0xdb else 0xdd) + o.w.Index()
            && HeaderSize(o) == k <= |h| && InField(o) < o.w.Limit() && h[1..k] == BigEndian(InField(o), o.w)
            && (o.w.W8? ==> o.Str? || o.Bin?)
  {
    hide BigEndian;
  }

  lemma CaseOfField(data: seq<byte>, pos: nat, o: Obj, floats: Floats)
    requires WellFormed(o) && (o.Str? || o.Bin? || o.Arr? || o.Map?) && StartsAt(HeadBytes(o), data, pos)
    ensures CaseAt(data, pos, floats) == Some((CaseOf(o, floats), pos + HeaderSize(o)))
  {
    hide CaseAt, Load, BigEndian, Text, Width.Index, StartsAt, HeadBytes, WellFormedHead, Field, HeaderSize;
    var h := HeadBytes(o);
    FieldHead(o);
    FirstByte(data, pos, h);
    FieldOf(data, pos, h, InField(o), o.w);
    FieldBranch(data, pos, o.w, InField(o), floats);
  }

  lemma ExtBranch(data: seq<byte>, pos: nat, end: nat, floats: Floats)
    requires pos < |data| && (0xc7 <= data[pos] <= 0xc9 || 0xd4 <= data[pos] <= 0xd8) && Skip(data, pos, 1) == Some(end)
    ensures CaseAt(data, pos, floats) == Some((Plain("undefined"), end))
  {
    hide Load, DecodeUint, DecodeInt, Skip;
  }

  lemma ExtHead(o: Obj, floats: Floats)
    requires WellFormed(o) && (o.Ext? || o.FixExt?)
    ensures var c := HeadBytes(o)[0]; 0xc7 <= c <= 0xc9 || 0xd4 <= c <= 0xd8
    ensures CaseOf(o, floats) == Plain("undefined") && HeaderSize(o) == |HeadBytes(o)| && o.Children() == []
  {
    hide BigEndian;
  }

  lemma CaseOfExt(data: seq<byte>, pos: nat, o: Obj, floats: Floats)
    requires WellFormed(o) && (o.Ext? || o.FixExt?) && StartsAt(HeadBytes(o), data, pos)
    ensures CaseAt(data, pos, floats) == Some((CaseOf(o, floats), pos + HeaderSize(o)))
  {
    hide CaseAt, CaseOf, HeaderSize, HeadBytes, WellFormedHead, Skip, StartsAt;
    ExtHead(o, floats);
    SkipsOne(data, pos, o);
    FirstByte(data, pos, HeadBytes(o));
    ExtBranch(data, pos, pos + |HeadBytes(o)|, floats);
  }

  /** At an encoding the switch takes the object's branch. */
  lemma CaseOfEncoding(data: seq<byte>, pos: nat, o: Obj, floats: Floats)
    requires WellFormed(o) && NoWrappedMaps(o) && StartsAt(HeadBytes(o), data, pos)
    ensures CaseAt(data, pos, floats) == Some((CaseOf(o, floats), pos + HeaderSize(o)))
  {
    hide *;
    match o
    case Single(_) => CaseOfSingle(data, pos, o, floats);
    case Number(_, _) => CaseOfNumber(data, pos, o, floats);
    case FixStr(_) => CaseOfFix(data, pos, o, floats);
    case FixArr(_) => CaseOfFix(data, pos, o, floats);
    case FixMap(_) => CaseOfFix(data, pos, o, floats);
    case FixExt(_, _) => CaseOfExt(data, pos, o, floats);
    case Ext(_, _, _) => CaseOfExt(data, pos, o, floats);
    case WrappedMap(_, _) => WrappedIsWrapped(o);
    case _ => CaseOfField(data, pos, o, floats);
  }

  lemma WrappedIsWrapped(o: Obj)
    requires o.WrappedMap?
    ensures !NoWrappedMaps(o)
  {
  }

  // ----- Where the parts of an object are

  ghost predicate At(data: seq<byte>, pos: nat, o: Obj) {
    WellFormed(o) && NoWrappedMaps(o) && StartsAt(Encode(o), data, pos)
  }

  ghost predicate AllAt(data: seq<byte>, pos: nat, items: seq<Obj>) {
    AllWellFormed(items) && StartsAt(EncodeAll(items), data, pos) && forall x :: x in items ==> NoWrappedMaps(x)
  }

  /** The next item, and the next pair, where the cursor is. */
  lemma ItemAt(data: seq<byte>, items: seq<Obj>, start: nat, i: nat, r: nat)
    requires AllAt(data, start, items) && i < |items| && Behind(items, start, i, r)
    ensures AllWellFormed(items) && WellFormed(items[i]) && At(data, r, items[i])
    ensures Behind(items, start, i + 1, r + |Encode(items[i])|)
  {
    hide Encode, EncodeAll, WellFormed, NoWrappedMaps, StartsAt, Behind;
    NextItem(data, items, start, i, r);
    assert items[i] in items;
  }

  lemma PairAt(data: seq<byte>, items: seq<Obj>, start: nat, i: nat, r: nat)
    requires AllAt(data, start, items) && 2 * i + 1 < |items| && Behind(items, start, 2 * i, r)
    ensures AllWellFormed(items) && WellFormed(items[2 * i]) && WellFormed(items[2 * i + 1])
    ensures At(data, r, items[2 * i]) && At(data, r + |Encode(items[2 * i])|, items[2 * i + 1])
    ensures Behind(items, start, 2 * (i + 1), r + |Encode(items[2 * i])| + |Encode(items[2 * i + 1])|)
  {
    hide Encode, EncodeAll, WellFormed, NoWrappedMaps, StartsAt, Behind;
    NextPair(data, items, start, i, r);
    assert items[2 * i] in items && items[2 * i + 1] in items;
  }

  /** What each branch prints. */
  lemma TextOfCase(o: Obj, floats: Floats)
    requires WellFormed(o) && NoWrappedMaps(o)
    ensures match CaseOf(o, floats)
            case Plain(text) => Text(o, floats) == text && o.Children() == [] && HeaderSize(o) == |HeadBytes(o)|
            case Quoted(len) =>
              (o.FixStr? || o.Str? || o.Bin?) && len == |o.data| && Text(o, floats) == QuotedText(o.data) + "\""
              && o.Children() == [] && HeaderSize(o) + len == |HeadBytes(o)|
            case Items(n) =>
              n == |o.Children()| && AllWellFormed(o.Children())
                  && Text(o, floats) == ItemsText(o.Children(), n, floats) + "]"
              && HeaderSize(o) == |HeadBytes(o)|
            case Pairs(n) =>
              2 * n == |o.Children()| && AllWellFormed(o.Children())
                  && Text(o, floats) == PairsText(o.Children(), n, floats) + "}"
              && HeaderSize(o) == |HeadBytes(o)|
  {
    hide BigEndian, NumberText, QuotedText, ItemsText, PairsText;
  }

  /** Dispatch at an object: the branch, the position behind what it decodes, and what follows. */
  lemma Dispatch(data: seq<byte>, pos: nat, o: Obj, floats: Floats)
    requires At(data, pos, o)
    ensures WellFormed(o) && pos < |data| && CaseAt(data, pos, floats) == Some((CaseOf(o, floats), pos + HeaderSize(o)))
    ensures match CaseOf(o, floats)
            case Plain(text) => Text(o, floats) == text && |Encode(o)| == HeaderSize(o)
            case Quoted(len) =>
              (o.FixStr? || o.Str? || o.Bin?) && len == |o.data| && StartsAt(o.data, data, pos + HeaderSize(o))
              && Text(o, floats) == QuotedText(o.data) + "\"" && |Encode(o)| == HeaderSize(o) + len
            case Items(n) =>
              n == |o.Children()| && AllAt(data, pos + HeaderSize(o), o.Children()) && AllWellFormed(o.Children())
              && Text(o, floats) == ItemsText(o.Children(), n, floats) + "]"
              && |Encode(o)| == HeaderSize(o) + |EncodeAll(o.Children())|
            case Pairs(n) =>
              2 * n == |o.Children()| && AllAt(data, pos + HeaderSize(o), o.Children()) && AllWellFormed(o.Children())
              && Text(o, floats) == PairsText(o.Children(), n, floats) + "}"
              && |Encode(o)| == HeaderSize(o) + |EncodeAll(o.Children())|
  {
    hide *;
    AtMeans(data, pos, o);
    HeaderComesFirst(data, pos, o);
    CaseOfEncoding(data, pos, o, floats);
    TextOfCase(o, floats);
    DataComesLast(data, pos, o);
    HeadNotEmpty(data, pos, o);
    AllAtMeans(data, pos + |HeadBytes(o)|, o);
  }

  lemma AtMeans(data: seq<byte>, pos: nat, o: Obj)
    requires At(data, pos, o)
    ensures WellFormed(o) && NoWrappedMaps(o) && StartsAt(Encode(o), data, pos)
  {
  }

  lemma AllAtMeans(data: seq<byte>, pos: nat, o: Obj)
    requires NoWrappedMaps(o) && AllWellFormed(o.Children()) && StartsAt(EncodeAll(o.Children()), data, pos)
    ensures AllAt(data, pos, o.Children()) && (o.Children() == [] ==> EncodeAll(o.Children()) == [])
  {
    ChildrenUnwrapped(o);
    hide NoWrappedMaps, WellFormed, AllWellFormed, StartsAt;
  }

  lemma ChildrenUnwrapped(o: Obj)
    requires NoWrappedMaps(o)
    ensures forall x :: x in o.Children() ==> NoWrappedMaps(x)
  {
  }

  lemma HeadNotEmpty(data: seq<byte>, pos: nat, o: Obj)
    requires WellFormedHead(o) && StartsAt(HeadBytes(o), data, pos)
    ensures pos < |data|
  {
  }

  lemma DataComesLast(data: seq<byte>, pos: nat, o: Obj)
    requires WellFormed(o) && StartsAt(HeadBytes(o), data, pos)
    ensures o.FixStr? || o.Str? || o.Bin? ==> StartsAt(o.data, data, pos + HeaderSize(o))
  {
    hide BigEndian;
    var h := HeadBytes(o);
    if o.FixStr? || o.Str? || o.Bin? {
      var k := HeaderSize(o);
      assert h == h[..k] + o.data;
      SplitStart(h[..k], o.data, data, pos);
    }
  }

  lemma OpeningQuote()
    ensures QuotedText([]) == "\""
  {
  }

  /** The loops over items and pairs begin behind the opening bracket. */
  lemma LoopStarts(data: seq<byte>, pos: nat, items: seq<Obj>, floats: Floats)
    requires AllAt(data, pos, items)
    ensures AllWellFormed(items) && ItemsText(items, 0, floats) == "[" && PairsText(items, 0, floats) == "{"
    ensures Behind(items, pos, 0, pos)
  {
    BehindNone(items, pos);
    hide WellFormed, StartsAt, EncodeAll, Behind;
  }

  lemma QuoteOneMore(d: seq<byte>, i: nat)
    requires i < |d|
    ensures QuotedText(d[..i + 1]) == QuotedText(d[..i]) + Escape(d[i])
  {
    hide Escape;
    assert d[..i + 1][..i] == d[..i];
  }

  lemma OneMoreItem(items: seq<Obj>, i: nat, floats: Floats)
    requires AllWellFormed(items) && i < |items|
    ensures ItemsText(items, i + 1, floats) == ItemsText(items, i, floats) + Separator(i) + Text(items[i], floats)
  {
    hide Text, Separator;
  }

  /** One more pair after what is printed. */
  function PairText(done: string, i: nat, key: Obj, value: Obj, floats: Floats): string
    requires WellFormed(key) && WellFormed(value)
  {
    done + Separator(i) + Text(key, floats) + ": " + Text(value, floats)
  }

  lemma PairTextIs(done: string, i: nat, key: Obj, value: Obj, floats: Floats)
    requires WellFormed(key) && WellFormed(value)
    ensures PairText(done, i, key, value, floats)
        == done + Separator(i) + Text(key, floats) + ": " + Text(value, floats)
  {
    hide Text, Separator;
  }

  lemma OneMorePair(o: Obj, i: nat, floats: Floats)
    requires AllWellFormed(o.Children()) && 2 * i + 1 < |o.Children()|
    ensures o.Children()[2 * i] < o && o.Children()[2 * i + 1] < o
    ensures PairsText(o.Children(), i + 1, floats)
            == PairText(PairsText(o.Children(), i, floats), i, o.Children()[2 * i], o.Children()[2 * i + 1], floats)
  {
    hide Text, Separator;
    assert 2 * (i + 1) - 2 == 2 * i && 2 * (i + 1) - 1 == 2 * i + 1;
  }

  lemma ChildIsSmaller(o: Obj, i: nat)
    requires i < |o.Children()|
    ensures o.Children()[i] < o
  {
  }

  // ----- mp_fprint

  class Stream {
    var content: string

    constructor ()
      ensures content == ""
    {
      content := "";
    }

    /** `done` has been printed since the content was `before`. */
    ghost predicate Shows(before: string, done: string, total: nat)
      reads this
    {
      content == before + done && total == |done|
    }

    /** HANDLE around fprintf, for the first piece and for every further one */
    method First(s: string) returns (total: nat)
      modifies this
      ensures Shows(old(content), s, total)
    {
      content := content + s;
      total := |s|;
    }

    method Print(s: string, total: nat, ghost before: string, ghost done: string) returns (total': nat)
      requires Shows(before, done, total)
      modifies this
      ensures Shows(before, done + s, total')
    {
      content := content + s;
      total' := total + |s|;
    }

    method PrintSeparator(i: nat, total: nat, ghost before: string, ghost done: string) returns (total': nat)
      requires Shows(before, done, total)
      modifies this
      ensures Shows(before, done + Separator(i), total')
    {
      if i > 0 {
        total' := Print(", ", total, before, done);
      } else {
        total' := total;
        assert done + "" == done;
      }
    }

    /** mp_fprint_internal: the whole text goes to the stream. */
    method PrintObject(data: seq<byte>, pos: nat, floats: Floats, ghost o: Obj) returns (total: nat, pos': nat)
      requires At(data, pos, o)
      modifies this
      ensures WellFormed(o) && Shows(old(content), Text(o, floats), total) && pos' == pos + |Encode(o)|
      decreases o, 2
    {
      hide *;
      Dispatch(data, pos, o, floats);
      var (branch, next) := CaseAt(data, pos, floats).value;
      match branch
      case Plain(text) =>
        total := First(text);
        pos' := next;
      case Quoted(len) =>
        total := PrintQuoted(data, next, len, o.data);
        pos' := next + len;
      case Items(count) =>
        total, pos' := PrintItems(data, next, count, floats, o);
      case Pairs(count) =>
        total, pos' := PrintPairs(data, next, count, floats, o);
    }

    method PrintQuoted(data: seq<byte>, pos: nat, len: nat, ghost d: seq<byte>) returns (total: nat)
      requires len == |d| && StartsAt(d, data, pos)
      modifies this
      ensures Shows(old(content), QuotedText(d) + "\"", total)
    {
      OpeningQuote();
      assert forall i :: 0 <= i < len ==> data[pos + i] == d[i];
      hide QuotedText, Escape, Shows;
      total := First("\"");
      assert d[..0] == [];
      for i := 0 to len
        invariant Shows(old(content), QuotedText(d[..i]), total)
      {
        QuoteOneMore(d, i);
        total := Print(Escape(data[pos + i]), total, old(content), QuotedText(d[..i]));
      }
      assert d[..len] == d;
      total := Print("\"", total, old(content), QuotedText(d));
    }

    method PrintItems(data: seq<byte>, pos: nat, count: nat, floats: Floats, ghost o: Obj)
      returns (total: nat, pos': nat)
      requires AllAt(data, pos, o.Children()) && count == |o.Children()|
      modifies this
      ensures AllWellFormed(o.Children()) && Shows(old(content), ItemsText(o.Children(), count, floats) + "]", total)
      ensures pos' == pos + |EncodeAll(o.Children())|
      decreases o, 0
    {
      hide *;
      ghost var items := o.Children();
      LoopStarts(data, pos, items, floats);
      total := First("[");
      pos' := pos;
      for i := 0 to count
        invariant AllWellFormed(items) && Behind(items, pos, i, pos')
        invariant Shows(old(content), ItemsText(items, i, floats), total)
      {
        ItemAt(data, items, pos, i, pos');
        OneMoreItem(items, i, floats);
        ChildIsSmaller(o, i);
        ghost var done := ItemsText(items, i, floats);
        total := PrintSeparator(i, total, old(content), done);
        total, pos' := PrintNested(data, pos', floats, items[i], total, old(content), done + Separator(i));
      }
      BehindAll(items, pos, pos');
      total := Print("]", total, old(content), ItemsText(items, count, floats));
    }

    method PrintPairs(data: seq<byte>, pos: nat, count: nat, floats: Floats, ghost o: Obj)
      returns (total: nat, pos': nat)
      requires AllAt(data, pos, o.Children()) && 2 * count == |o.Children()|
      modifies this
      ensures AllWellFormed(o.Children()) && Shows(old(content), PairsText(o.Children(), count, floats) + "}", total)
      ensures pos' == pos + |EncodeAll(o.Children())|
      decreases o, 1
    {
      hide *;
      ghost var items, before := o.Children(), content;
      LoopStarts(data, pos, items, floats);
      total := First("{");
      pos' := pos;
      for i := 0 to count
        invariant AllWellFormed(items) && Behind(items, pos, 2 * i, pos')
        invariant Shows(before, PairsText(items, i, floats), total)
      {
        PairAt(data, items, pos, i, pos');
        OneMorePair(o, i, floats);
        total, pos' := PrintPair(data, pos', i, floats, o, items[2 * i], items[2 * i + 1], total, before,
                                 PairsText(items, i, floats));
      }
      BehindAll(items, pos, pos');
      total := Print("}", total, before, PairsText(items, count, floats));
    }

    /** One round of the loop over a map's pairs. */
    method PrintPair(data: seq<byte>, pos: nat, i: nat, floats: Floats, ghost o: Obj, ghost key: Obj,
                     ghost value: Obj, total: nat, ghost before: string, ghost done: string)
      returns (total': nat, pos': nat)
      requires key < o && value < o && WellFormed(key) && At(data, pos, key) && At(data, pos + |Encode(key)|, value)
      requires Shows(before, done, total)
      modifies this
      ensures WellFormed(value) && Shows(before, PairText(done, i, key, value, floats), total')
      ensures pos' == pos + |Encode(key)| + |Encode(value)|
      decreases o, 0
    {
      hide *;
      total' := PrintSeparator(i, total, before, done);
      total', pos' := PrintNested(data, pos, floats, key, total', before, done + Separator(i));
      total' := Print(": ", total', before, done + Separator(i) + Text(key, floats));
      total', pos' := PrintNested(data, pos', floats, value, total', before,
                                  done + Separator(i) + Text(key, floats) + ": ");
      PairTextIs(done, i, key, value, floats);
    }

    /** HANDLE around the recursive call */
    method PrintNested(data: seq<byte>, pos: nat, floats: Floats, ghost o: Obj, total: nat, ghost before: string,
                       ghost done: string)
      returns (total': nat, pos': nat)
      requires At(data, pos, o) && Shows(before, done, total)
      modifies this
      ensures WellFormed(o) && Shows(before, done + Text(o, floats), total') && pos' == pos + |Encode(o)|
      decreases o, 3
    {
      hide At, Text, Encode, WellFormed;
      var bytes;
      bytes, pos' := PrintObject(data, pos, floats, o);
      total' := total + bytes;
    }
  }

  // ----- mp_snprint

  /** The locals buf, size and total_bytes of mp_snprint_internal; buf as a position. */
  datatype Cursor = Cursor(at: nat, size: nat, total: nat)

  /** `done` has been printed since the buffer was `before`, from at0 on into size0 bytes. */
  ghost predicate Filled(now: string, before: string, at0: nat, size0: nat, done: string, cur: Cursor) {
    && at0 + size0 <= |before| && now == Printed(before, at0, size0, done)
    && (cur.at, cur.size) == Handled(at0, size0, |done|) && cur.total == |done|
  }

  lemma FilledStep(now: string, before: string, at0: nat, size0: nat, done: string, cur: Cursor, s: string,
                   now': string)
    requires Filled(now, before, at0, size0, done, cur) && cur.at + cur.size <= |now|
    requires now' == Printed(now, cur.at, cur.size, s)
    ensures var (at, size) := Handled(cur.at, cur.size, |s|);
            Filled(now', before, at0, size0, done + s, Cursor(at, size, cur.total + |s|))
  {
    PrintedJoins(before, at0, size0, done, s);
    hide Printed;
  }

  lemma FilledRoom(now: string, before: string, at0: nat, size0: nat, done: string, cur: Cursor)
    requires Filled(now, before, at0, size0, done, cur)
    ensures cur.at + cur.size <= |now| == |before|
  {
    hide Printed;
  }

  lemma FilledFirst(before: string, at0: nat, size0: nat, s: string)
    requires at0 + size0 <= |before|
    ensures var (at, size) := Handled(at0, size0, |s|);
            Filled(Printed(before, at0, size0, s), before, at0, size0, s, Cursor(at, size, |s|))
  {
    hide Printed;
  }

  /** snprintf */
  method Snprintf(buf: array<char>, at: nat, size: nat, s: string) returns (bytes: nat)
    requires at + size <= buf.Length
    modifies buf
    ensures buf[..] == Printed(old(buf[..]), at, size, s) && bytes == |s|
  {
    bytes := |s|;
    if size > 0 {
      ghost var before := buf[..];
      var n := if |s| < size then |s| else size - 1;
      for k := 0 to n
        invariant buf[..at + k] == before[..at] + s[..k] && buf[at + k..] == before[at + k..]
      {
        buf[at + k] := s[k];
      }
      buf[at + n] := '\0';
      Terminated(before, buf[..], at, size, s, n);
    }
  }

  lemma Terminated(before: string, now: string, at: nat, size: nat, s: string, n: nat)
    requires at + size <= |before| == |now| && 0 < size && n == if |s| < size then |s| else size - 1
    requires now[..at + n] == before[..at] + s[..n] && now[at + n] == '\0' && now[at + n + 1..] == before[at + n + 1..]
    ensures now == Printed(before, at, size, s)
  {
    assert now == now[..at + n] + ['\0'] + now[at + n + 1..];
    assert s[..|s|] == s;
  }

  class Buffer {
    const buf: array<char>

    constructor (buf: array<char>)
      ensures this.buf == buf
    {
      this.buf := buf;
    }

    /** HANDLE around snprintf, for the first piece and for every further one */
    method First(at: nat, size: nat, s: string) returns (cur: Cursor)
      requires at + size <= buf.Length
      modifies buf
      ensures Filled(buf[..], old(buf[..]), at, size, s, cur)
    {
      FilledFirst(buf[..], at, size, s);
      hide Printed, Filled;
      var bytes := Snprintf(buf, at, size, s);
      cur := After(Cursor(at, size, 0), bytes);
    }

    method Print(s: string, cur: Cursor, ghost before: string, ghost at: nat, ghost size: nat,
                 ghost done: string) returns (cur': Cursor)
      requires Filled(buf[..], before, at, size, done, cur)
      modifies buf
      ensures Filled(buf[..], before, at, size, done + s, cur')
    {
      hide Printed;
      FilledRoom(buf[..], before, at, size, done, cur);
      ghost var now := buf[..];
      var bytes := Snprintf(buf, cur.at, cur.size, s);
      FilledStep(now, before, at, size, done, cur, s, buf[..]);
      cur' := After(cur, bytes);
    }

    /** The step of HANDLE: on to behind the bytes, or to no buffer at all. */
    static function After(cur: Cursor, bytes: nat): Cursor {
      if bytes < cur.size then Cursor(cur.at + bytes, cur.size - bytes, cur.total + bytes)
          else Cursor(0, 0, cur.total + bytes)
    }

    method PrintSeparator(i: nat, cur: Cursor, ghost before: string, ghost at: nat, ghost size: nat,
                          ghost done: string) returns (cur': Cursor)
      requires Filled(buf[..], before, at, size, done, cur)
      modifies buf
      ensures Filled(buf[..], before, at, size, done + Separator(i), cur')
    {
      hide Filled;
      if i > 0 {
        cur' := Print(", ", cur, before, at, size, done);
      } else {
        cur' := cur;
        assert done + "" == done;
      }
    }

    /** mp_snprint_internal: as much of the text as fits. */
    method PrintObject(at: nat, size: nat, data: seq<byte>, pos: nat, floats: Floats, ghost o: Obj)
      returns (cur: Cursor, pos': nat)
      requires At(data, pos, o) && at + size <= buf.Length
      modifies buf
      ensures WellFormed(o) && Filled(buf[..], old(buf[..]), at, size, Text(o, floats), cur)
      ensures pos' == pos + |Encode(o)|
      decreases o, 2
    {
      hide *;
      Dispatch(data, pos, o, floats);
      var (branch, next) := CaseAt(data, pos, floats).value;
      match branch
      case Plain(text) =>
        cur := First(at, size, text);
        pos' := next;
      case Quoted(len) =>
        cur := PrintQuoted(at, size, data, next, len, o.data);
        pos' := next + len;
      case Items(count) =>
        cur, pos' := PrintItems(at, size, data, next, count, floats, o);
      case Pairs(count) =>
        cur, pos' := PrintPairs(at, size, data, next, count, floats, o);
    }

    method PrintQuoted(at: nat, size: nat, data: seq<byte>, pos: nat, len: nat, ghost d: seq<byte>)
      returns (cur: Cursor)
      requires len == |d| && StartsAt(d, data, pos) && at + size <= buf.Length
      modifies buf
      ensures Filled(buf[..], old(buf[..]), at, size, QuotedText(d) + "\"", cur)
    {
      OpeningQuote();
      assert forall i :: 0 <= i < len ==> data[pos + i] == d[i];
      hide QuotedText, Escape, Filled;
      ghost var before := buf[..];
      cur := First(at, size, "\"");
      assert d[..0] == [];
      for i := 0 to len
        invariant Filled(buf[..], before, at, size, QuotedText(d[..i]), cur)
      {
        QuoteOneMore(d, i);
        cur := Print(Escape(data[pos + i]), cur, before, at, size, QuotedText(d[..i]));
      }
      assert d[..len] == d;
      cur := Print("\"", cur, before, at, size, QuotedText(d));
    }

    method PrintItems(at: nat, size: nat, data: seq<byte>, pos: nat, count: nat, floats: Floats, ghost o: Obj)
      returns (cur: Cursor, pos': nat)
      requires AllAt(data, pos, o.Children()) && count == |o.Children()| && at + size <= buf.Length
      modifies buf
      ensures AllWellFormed(o.Children())
      ensures Filled(buf[..], old(buf[..]), at, size, ItemsText(o.Children(), count, floats) + "]", cur)
      ensures pos' == pos + |EncodeAll(o.Children())|
      decreases o, 1
    {
      hide *;
      ghost var items, before := o.Children(), buf[..];
      LoopStarts(data, pos, items, floats);
      cur := First(at, size, "[");
      pos' := pos;
      for i := 0 to count
        invariant AllWellFormed(items) && Behind(items, pos, i, pos')
        invariant Filled(buf[..], before, at, size, ItemsText(items, i, floats), cur)
      {
        ItemAt(data, items, pos, i, pos');
        OneMoreItem(items, i, floats);
        ChildIsSmaller(o, i);
        ghost var done := ItemsText(items, i, floats);
        cur := PrintSeparator(i, cur, before, at, size, done);
        cur, pos' := PrintNested(data, pos', floats, items[i], cur, before, at, size, done + Separator(i));
      }
      BehindAll(items, pos, pos');
      cur := Print("]", cur, before, at, size, ItemsText(items, count, floats));
    }

    method PrintPairs(at: nat, size: nat, data: seq<byte>, pos: nat, count: nat, floats: Floats, ghost o: Obj)
      returns (cur: Cursor, pos': nat)
      requires AllAt(data, pos, o.Children()) && 2 * count == |o.Children()| && at + size <= buf.Length
      modifies buf
      ensures AllWellFormed(o.Children())
      ensures Filled(buf[..], old(buf[..]), at, size, PairsText(o.Children(), count, floats) + "}", cur)
      ensures pos' == pos + |EncodeAll(o.Children())|
      decreases o, 1
    {
      hide *;
      ghost var items, before := o.Children(), buf[..];
      LoopStarts(data, pos, items, floats);
      cur := First(at, size, "{");
      pos' := pos;
      for i := 0 to count
        invariant AllWellFormed(items) && Behind(items, pos, 2 * i, pos')
        invariant Filled(buf[..], before, at, size, PairsText(items, i, floats), cur)
      {
        PairAt(data, items, pos, i, pos');
        OneMorePair(o, i, floats);
        cur, pos' := PrintPair(data, pos', i, floats, o, items[2 * i], items[2 * i + 1], cur, before, at, size,
                               PairsText(items, i, floats));
      }
      BehindAll(items, pos, pos');
      cur := Print("}", cur, before, at, size, PairsText(items, count, floats));
    }

    /** One round of the loop over a map's pairs. */
    method PrintPair(data: seq<byte>, pos: nat, i: nat, floats: Floats, ghost o: Obj, ghost key: Obj,
                     ghost value: Obj, cur: Cursor, ghost before: string, ghost at: nat, ghost size: nat,
                     ghost done: string)
      returns (cur': Cursor, pos': nat)
      requires key < o && value < o && WellFormed(key) && At(data, pos, key) && At(data, pos + |Encode(key)|, value)
      requires Filled(buf[..], before, at, size, done, cur)
      modifies buf
      ensures WellFormed(value) && Filled(buf[..], before, at, size, PairText(done, i, key, value, floats), cur')
      ensures pos' == pos + |Encode(key)| + |Encode(value)|
      decreases o, 0
    {
      hide *;
      cur', pos' := PrintKey(data, pos, i, floats, key, cur, before, at, size, done);
      cur', pos' := PrintNested(data, pos', floats, value, cur', before, at, size,
                                done + Separator(i) + Text(key, floats) + ": ");
      PairTextIs(done, i, key, value, floats);
    }

    method PrintKey(data: seq<byte>, pos: nat, i: nat, floats: Floats, ghost key: Obj, cur: Cursor,
                    ghost before: string, ghost at: nat, ghost size: nat, ghost done: string)
      returns (cur': Cursor, pos': nat)
      requires At(data, pos, key) && Filled(buf[..], before, at, size, done, cur)
      modifies buf
      ensures WellFormed(key) && Filled(buf[..], before, at, size, done + Separator(i) + Text(key, floats) + ": ", cur')
      ensures pos' == pos + |Encode(key)|
      decreases key, 4
    {
      hide *;
      cur' := PrintSeparator(i, cur, before, at, size, done);
      cur', pos' := PrintNested(data, pos, floats, key, cur', before, at, size, done + Separator(i));
      cur' := Print(": ", cur', before, at, size, done + Separator(i) + Text(key, floats));
    }

    /** HANDLE around the recursive call */
    method PrintNested(data: seq<byte>, pos: nat, floats: Floats, ghost o: Obj, cur: Cursor,
                       ghost before: string, ghost at: nat, ghost size: nat, ghost done: string)
      returns (cur': Cursor, pos': nat)
      requires At(data, pos, o) && Filled(buf[..], before, at, size, done, cur)
      modifies buf
      ensures WellFormed(o) && Filled(buf[..], before, at, size, done + Text(o, floats), cur')
      ensures pos' == pos + |Encode(o)|
      decreases o, 3
    {
      hide At, Text, Encode, WellFormed, Printed;
      FilledRoom(buf[..], before, at, size, done, cur);
      ghost var now := buf[..];
      var inner;
      inner, pos' := PrintObject(cur.at, cur.size, data, pos, floats, o);
      FilledStep(now, before, at, size, done, cur, Text(o, floats), buf[..]);
      cur' := After(cur, inner.total);
    }
  }

  /** mp_fprint and mp_snprint on the same object: the same length, and the buffer gets the first
      size - 1 characters of what the stream gets. */
  method PrintBoth(file: Stream, buf: array<char>, size: nat, data: seq<byte>, floats: Floats, ghost o: Obj)
    returns (full: nat, length: nat)
    requires At(data, 0, o) && 1 <= size <= buf.Length && file.content == ""
    modifies file, buf
    ensures WellFormed(o) && file.content == Text(o, floats)
    ensures full == length == |file.content|
    ensures var m := if length < size then length else size - 1;
            buf[..] == file.content[..m] + ['\0'] + old(buf[..])[m + 1..]
  {
    hide *;
    ghost var before := buf[..];
    StartsEmpty(data, o, floats, file.content);
    var next, cur;
    full, next := file.PrintObject(data, 0, floats, o);
    var target := new Buffer(buf);
    cur, next := target.PrintObject(0, size, data, 0, floats, o);
    length := cur.total;
    BothMean(file, Text(o, floats), full, buf[..], before, size, cur);
  }

  lemma StartsEmpty(data: seq<byte>, o: Obj, floats: Floats, content: string)
    requires At(data, 0, o) && content == ""
    ensures WellFormed(o)
  {
  }

  lemma BothMean(file: Stream, text: string, full: nat, now: string, before: string, size: nat, cur: Cursor)
    requires file.Shows("", text, full) && Filled(now, before, 0, size, text, cur) && 1 <= size <= |before|
    ensures file.content == text && full == cur.total == |text|
    ensures var m := if |text| < size then |text| else size - 1; now == text[..m] + ['\0'] + before[m + 1..]
  {
    assert text[..|text|] == text;
  }
}

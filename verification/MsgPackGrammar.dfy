/** MessagePack objects as trees and their encodings, after the "Formats" section of the
    MessagePack specification. */
module MsgPackGrammar {

  import opened Basics

  /** The widths a length or count field comes in. */
  datatype Width = W8 | W16 | W32 {
    function Limit(): nat {
      match this case W8 => 0x100 case W16 => 0x1_0000 case W32 => 0x1_0000_0000
    }
    function Index(): nat {
      match this case W8 => 0 case W16 => 1 case W32 => 2
    }
  }

  /** Big-endian, in as many bytes as the width has. */
  function BigEndian(n: nat, w: Width): (s: seq<byte>)
    requires n < w.Limit()
    ensures |s| == match w case W8 => 1 case W16 => 2 case W32 => 4
  {
    match w
    case W8 => [n]
    case W16 => [n / 0x100, n % 0x100]
    case W32 => [n / 0x100_0000, n / 0x1_0000 % 0x100, n / 0x100 % 0x100, n % 0x100]
  }

  function Join(high: int, low: byte): int { high * 0x100 + low }

  /** The value of a field starting at pos. */
  function Load(buf: seq<byte>, pos: nat, w: Width): (n: nat)
    requires pos + (match w case W8 => 1 case W16 => 2 case W32 => 4) <= |buf|
    ensures n < w.Limit()
  {
    match w
    case W8 => buf[pos]
    case W16 => Join(buf[pos], buf[pos + 1])
    case W32 => Join(Join(Join(buf[pos], buf[pos + 1]), buf[pos + 2]), buf[pos + 3])
  }

  lemma LastDigit(n: nat, p: int, d: byte)
    ensures n == Join(p, d) <==> p == n / 0x100 && d == n % 0x100
  {
  }

  lemma Quarters(n: nat)
    ensures n / 0x100 / 0x100 == n / 0x1_0000
  {
  }

  lemma Digits(n: nat, a: byte, b: byte, c: byte, d: byte)
    requires n < 0x1_0000_0000
    ensures n == Join(Join(Join(a, b), c), d) <==> [a, b, c, d] == BigEndian(n, W32)
  {
    var p := n / 0x100;
    var q := n / 0x1_0000;
    Quarters(n);
    Quarters(p);
    assert q / 0x100 == n / 0x100_0000;
    LastDigit(n, Join(Join(a, b), c), d);
    LastDigit(p, Join(a, b), c);
    LastDigit(q, a, b);
    hide Join;
  }

  lemma TwoDigits(n: nat, a: byte, b: byte)
    requires n < 0x1_0000
    ensures n == Join(a, b) <==> [a, b] == BigEndian(n, W16)
  {
    LastDigit(n, a, b);
  }

  lemma LoadInverts(buf: seq<byte>, pos: nat, n: nat, w: Width)
    requires n < w.Limit() && pos + |BigEndian(n, w)| <= |buf|
    ensures buf[pos..pos + |BigEndian(n, w)|] == BigEndian(n, w) <==> Load(buf, pos, w) == n
  {
    hide Join;
    match w
    case W8 => assert buf[pos..pos + 1] == [buf[pos]];
    case W16 =>
      TwoDigits(n, buf[pos], buf[pos + 1]);
      assert buf[pos..pos + 2] == [buf[pos], buf[pos + 1]];
    case W32 =>
      Digits(n, buf[pos], buf[pos + 1], buf[pos + 2], buf[pos + 3]);
      assert buf[pos..pos + 4] == [buf[pos], buf[pos + 1], buf[pos + 2], buf[pos + 3]];
  }

  /** Maps hold keys and values alternating. The last constructor is what a 32-bit skipper makes
      of a map header whose count, doubled, does not fit 32 bits. */
  datatype Obj =
    | Single(c: byte)
    | Number(c: byte, data: seq<byte>)
    | FixStr(data: seq<byte>)
    | Str(w: Width, data: seq<byte>)
    | Bin(w: Width, data: seq<byte>)
    | FixExt(tag: byte, data: seq<byte>)
    | Ext(w: Width, tag: byte, data: seq<byte>)
    | FixArr(items: seq<Obj>)
    | Arr(w: Width, items: seq<Obj>)
    | FixMap(items: seq<Obj>)
    | Map(w: Width, items: seq<Obj>)
    | WrappedMap(count: nat, items: seq<Obj>)
  {
    function Children(): seq<Obj> {
      if FixArr? || Arr? || FixMap? || Map? || WrappedMap? then items else []
    }
  }

  /** Payload sizes of float 32 to int 64, formats 0xca to 0xd3. */
  function NumberSize(c: byte): nat {
    match c
    case 0xca => 4 case 0xcb => 8
    case 0xcc => 1 case 0xcd => 2 case 0xce => 4 case 0xcf => 8
    case 0xd0 => 1 case 0xd1 => 2 case 0xd2 => 4 case 0xd3 => 8
    case _ => 0
  }

  function FixExtCode(size: nat): byte {
    match size case 1 => 0xd4 case 2 => 0xd5 case 4 => 0xd6 case 8 => 0xd7 case _ => 0xd8
  }

  /** The format of one node, its children aside. */
  predicate WellFormedHead(o: Obj) {
    match o
    case Single(c) => c <= 0x7f || c >= 0xe0 || 0xc0 <= c <= 0xc3
    case Number(c, d) => 0xca <= c <= 0xd3 && |d| == NumberSize(c)
    case FixStr(d) => |d| <= 31
    case Str(w, d) => |d| < w.Limit()
    case Bin(w, d) => |d| < w.Limit()
    case FixExt(_, d) => |d| == 1 || |d| == 2 || |d| == 4 || |d| == 8 || |d| == 16
    case Ext(w, _, d) => |d| < w.Limit()
    case FixArr(items) => |items| <= 15
    case Arr(w, items) => !w.W8? && |items| < w.Limit()
    case FixMap(items) => |items| % 2 == 0 && |items| <= 30
    case Map(w, items) => !w.W8? && |items| % 2 == 0 && |items| / 2 < if w.W16? then 0x1_0000 else 0x8000_0000
    case WrappedMap(n, items) => 0x8000_0000 <= n < 0x1_0000_0000 && |items| == 2 * n - 0x1_0000_0000
  }

  predicate WellFormed(o: Obj) {
    WellFormedHead(o) && forall x :: x in o.Children() ==> WellFormed(x)
  }

  predicate AllWellFormed(s: seq<Obj>) {
    forall x :: x in s ==> WellFormed(x)
  }

  /** Head byte, length or count field, and payload. */
  function HeadBytes(o: Obj): (s: seq<byte>)
    requires WellFormedHead(o)
    ensures |s| > 0
  {
    match o
    case Single(c) => [c]
    case Number(c, d) => [c] + d
    case FixStr(d) => [0xa0 + |d|] + d
    case Str(w, d) => [0xd9 + w.Index()] + BigEndian(|d|, w) + d
    case Bin(w, d) => [0xc4 + w.Index()] + BigEndian(|d|, w) + d
    case FixExt(t, d) => [FixExtCode(|d|), t] + d
    case Ext(w, t, d) => [0xc7 + w.Index()] + BigEndian(|d|, w) + [t] + d
    case FixArr(items) => [0x90 + |items|]
    case Arr(w, items) => [0xdb + w.Index()] + BigEndian(|items|, w)
    case FixMap(items) => [0x80 + |items| / 2]
    case Map(w, items) => [0xdd + w.Index()] + BigEndian(|items| / 2, w)
    case WrappedMap(n, _) => [0xdf] + BigEndian(n, W32)
  }

  function Encode(o: Obj): (s: seq<byte>)
    requires WellFormed(o)
    ensures |s| > 0
    decreases o, 0
  {
    match o
    case FixArr(items) => HeadBytes(o) + EncodeAll(items)
    case Arr(_, items) => HeadBytes(o) + EncodeAll(items)
    case FixMap(items) => HeadBytes(o) + EncodeAll(items)
    case Map(_, items) => HeadBytes(o) + EncodeAll(items)
    case WrappedMap(_, items) => HeadBytes(o) + EncodeAll(items)
    case _ => HeadBytes(o)
  }

  function EncodeAll(objs: seq<Obj>): seq<byte>
    requires AllWellFormed(objs)
    decreases objs, 1
  {
    if objs == [] then [] else Encode(objs[0]) + EncodeAll(objs[1..])
  }

  lemma EncodeUnfolds(o: Obj)
    requires WellFormed(o)
    ensures WellFormedHead(o) && AllWellFormed(o.Children()) && Encode(o) == HeadBytes(o) + EncodeAll(o.Children())
  {
    hide HeadBytes;
    if !(o.FixArr? || o.Arr? || o.FixMap? || o.Map? || o.WrappedMap?) {
      assert HeadBytes(o) + [] == HeadBytes(o);
    }
  }

  lemma {:induction false} EncodeAllOfSum(a: seq<Obj>, b: seq<Obj>)
    requires AllWellFormed(a) && AllWellFormed(b)
    ensures AllWellFormed(a + b) && EncodeAll(a + b) == EncodeAll(a) + EncodeAll(b)
  {
    hide Encode;
    if a == [] {
      assert a + b == b;
    } else {
      EncodeAllOfSum(a[1..], b);
      assert (a + b)[1..] == a[1..] + b && (a + b)[0] == a[0];
    }
  }

  /** No count anywhere that does not survive doubling. */
  predicate NoWrappedMaps(o: Obj) {
    !o.WrappedMap? && forall x :: x in o.Children() ==> NoWrappedMaps(x)
  }

  /** A head the MessagePack specification has: 0xc1 is the one byte its formats never use. */
  predicate StandardHead(o: Obj) {
    !o.WrappedMap? && o != Single(0xc1)
  }

  /** An object of the MessagePack specification. */
  predicate Standard(o: Obj) {
    StandardHead(o) && forall x :: x in o.Children() ==> Standard(x)
  }
}

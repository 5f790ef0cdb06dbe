/** Integers: encoding, sizes, decoding and comparing. */
module MsgPackNumbers {
  import opened Basics
  import opened PowersOfTwo
  import opened MsgPackGrammar

  function StoreU64(n: nat): (s: seq<byte>)
    requires n < TWO64
    ensures |s| == 8
  {
    BigEndian(n / TWO32, W32) + BigEndian(n % TWO32, W32)
  }

  function LoadU64(buf: seq<byte>, pos: nat): (n: nat)
    requires pos + 8 <= |buf|
    ensures n < TWO64
  {
    Load(buf, pos, W32) * TWO32 + Load(buf, pos + 4, W32)
  }

  lemma LoadU64Inverts(buf: seq<byte>, pos: nat, n: nat)
    requires n < TWO64 && pos + 8 <= |buf| && buf[pos..pos + 8] == StoreU64(n)
    ensures LoadU64(buf, pos) == n
  {
    var s := buf[pos..pos + 8];
    hide BigEndian, Load;
    assert buf[pos..pos + 4] == s[..4] == BigEndian(n / TWO32, W32);
    assert buf[pos + 4..pos + 8] == s[4..] == BigEndian(n % TWO32, W32);
    LoadInverts(buf, pos, n / TWO32, W32);
    LoadInverts(buf, pos + 4, n % TWO32, W32);
  }

  // ----- mp_encode_uint, mp_encode_int, and their sizes

  function EncodeUint(num: nat): (s: seq<byte>)
    requires num < TWO64
  {
    if num <= 0x7f then [num]
    else if num <= 0xff then [0xcc] + BigEndian(num, W8)
    else if num <= 0xffff then [0xcd] + BigEndian(num, W16)
    else if num <= 0xffff_ffff then [0xce] + BigEndian(num, W32)
    else [0xcf] + StoreU64(num)
  }

  function SizeofUint(num: nat): nat
    requires num < TWO64
  {
    if num <= 0x7f then 1 else if num <= 0xff then 2 else if num <= 0xffff then 3 else if num <= 0xffff_ffff then 5
        else 9
  }

  function EncodeInt(num: int): (s: seq<byte>)
    requires -0x8000_0000_0000_0000 <= num < 0
  {
    if num >= -0x20 then [0x100 + num]
    else if num >= -0x80 then [0xd0] + BigEndian(0x100 + num, W8)
    else if num >= -0x8000 then [0xd1] + BigEndian(0x1_0000 + num, W16)
    else if num >= -0x8000_0000 then [0xd2] + BigEndian(TWO32 + num, W32)
    else [0xd3] + StoreU64(TWO64 + num)
  }

  /** The upper bounds are the source's; below zero they never matter. */
  function SizeofInt(num: int): nat
    requires -0x8000_0000_0000_0000 <= num < 0
  {
    if num >= -0x20 then 1
    else if -0x80 <= num <= 0x7f then 2
    else if -0x8000 <= num <= 0xffff then 3
    else if -0x8000_0000 <= num <= 0xffff_ffff then 5
    else 9
  }

  // ----- mp_decode_uint, mp_decode_int: the value and the position behind it

  function DecodeUint(buf: seq<byte>, pos: nat): Option<(nat, nat)> {
    if pos >= |buf| then None
    else
      var c := buf[pos];
      if c == 0xcc && pos + 2 <= |buf| then Some((Load(buf, pos + 1, W8), pos + 2))
      else if c == 0xcd && pos + 3 <= |buf| then Some((Load(buf, pos + 1, W16), pos + 3))
      else if c == 0xce && pos + 5 <= |buf| then Some((Load(buf, pos + 1, W32), pos + 5))
      else if c == 0xcf && pos + 9 <= |buf| then Some((LoadU64(buf, pos + 1), pos + 9))
      else if c <= 0x7f then Some((c, pos + 1))
      else None
  }

  function Signed(n: nat, limit: nat): int {
    if n < limit / 2 then n else n - limit
  }

  function DecodeInt(buf: seq<byte>, pos: nat): Option<(int, nat)> {
    if pos >= |buf| then None
    else
      var c := buf[pos];
      if c == 0xd0 && pos + 2 <= |buf| then Some((Signed(Load(buf, pos + 1, W8), 0x100), pos + 2))
      else if c == 0xd1 && pos + 3 <= |buf| then Some((Signed(Load(buf, pos + 1, W16), 0x1_0000), pos + 3))
      else if c == 0xd2 && pos + 5 <= |buf| then Some((Signed(Load(buf, pos + 1, W32), TWO32), pos + 5))
      else if c == 0xd3 && pos + 9 <= |buf| then Some((Signed(LoadU64(buf, pos + 1), TWO64), pos + 9))
      else if c >= 0xe0 then Some((Signed(c, 0x100), pos + 1))
      else None
  }

  /** Encoding anywhere in a buffer and decoding gives the number and the position behind it. */
  lemma UintRoundTrip(num: nat, buf: seq<byte>, pos: nat)
    requires num < TWO64 && pos + |EncodeUint(num)| <= |buf| && buf[pos..pos + |EncodeUint(num)|] == EncodeUint(num)
    ensures DecodeUint(buf, pos) == Some((num, pos + SizeofUint(num))) && |EncodeUint(num)| == SizeofUint(num)
  {
    var s := buf[pos..pos + |EncodeUint(num)|];
    hide BigEndian, Load;
    assert buf[pos] == s[0];
    assert buf[pos + 1..pos + |s|] == s[1..];
    if 0x7f < num <= 0xff { LoadInverts(buf, pos + 1, num, W8); }
    else if 0xff < num <= 0xffff { LoadInverts(buf, pos + 1, num, W16); }
    else if 0xffff < num <= 0xffff_ffff { LoadInverts(buf, pos + 1, num, W32); }
    else if 0xffff_ffff < num { LoadU64Inverts(buf, pos + 1, num); }
  }

  lemma IntRoundTrip(num: int, buf: seq<byte>, pos: nat)
    requires -0x8000_0000_0000_0000 <= num < 0
    requires pos + |EncodeInt(num)| <= |buf| && buf[pos..pos + |EncodeInt(num)|] == EncodeInt(num)
    ensures DecodeInt(buf, pos) == Some((num, pos + SizeofInt(num))) && |EncodeInt(num)| == SizeofInt(num)
  {
    var s := buf[pos..pos + |EncodeInt(num)|];
    hide BigEndian, Load;
    assert buf[pos] == s[0];
    assert buf[pos + 1..pos + |s|] == s[1..];
    if -0x80 <= num < -0x20 { LoadInverts(buf, pos + 1, 0x100 + num, W8); }
    else if -0x8000 <= num < -0x80 { LoadInverts(buf, pos + 1, 0x1_0000 + num, W16); }
    else if -0x8000_0000 <= num < -0x8000 { LoadInverts(buf, pos + 1, TWO32 + num, W32); }
    else if num < -0x8000_0000 { LoadU64Inverts(buf, pos + 1, TWO64 + num); }
  }

  // ----- mp_compare_uint

  /** The sign of the comparison: first bytes first, and the numbers only behind equal ones. */
  function CompareUint(a: seq<byte>, b: seq<byte>): (r: int)
    requires DecodeUint(a, 0).Some? && DecodeUint(b, 0).Some?
  {
    if a[0] != b[0] then Less(a[0], b[0])
    else if a[0] <= 0x7f then 0
    else Less(DecodeUint(a, 0).value.0, DecodeUint(b, 0).value.0)
  }

  function Less(x: int, y: int): int {
    if x < y then -1 else if x > y then 1 else 0
  }

  lemma EncodeUintDecodes(n: nat)
    requires n < TWO64
    ensures DecodeUint(EncodeUint(n), 0) == Some((n, |EncodeUint(n)|))
  {
    var s := EncodeUint(n);
    assert s[0..0 + |s|] == s;
    UintRoundTrip(n, s, 0);
  }

  lemma HeadsAreOrdered(m: nat, n: nat)
    requires m < n < TWO64
    ensures EncodeUint(m)[0] <= EncodeUint(n)[0]
    ensures EncodeUint(m)[0] == EncodeUint(n)[0] ==> EncodeUint(m)[0] > 0x7f
  {
  }

  /** Comparing encodings compares numbers against every shortest encoding exactly when the
      encoding is itself the shortest. */
  lemma ComparesExactlyShortest(e: seq<byte>, v: nat)
    requires v < TWO64 && DecodeUint(e, 0) == Some((v, |e|))
    ensures (forall n: nat {:trigger EncodeUint(n)} :: n < TWO64 ==>
               DecodeUint(EncodeUint(n), 0).Some? && CompareUint(e, EncodeUint(n)) == Less(v, n))
            <==> e[0] == EncodeUint(v)[0]
    ensures |EncodeUint(v)| <= |e|
  {
    EncodeUintDecodes(v);
    forall n: nat | n < TWO64 && e[0] == EncodeUint(v)[0]
      ensures DecodeUint(EncodeUint(n), 0).Some? && CompareUint(e, EncodeUint(n)) == Less(v, n)
    {
      EncodeUintDecodes(n);
      if v < n { HeadsAreOrdered(v, n); } else if n < v { HeadsAreOrdered(n, v); }
    }
  }

  /** 5 in two bytes compares as more than 6. */
  lemma LongFormsMisorder()
    ensures DecodeUint([0xcc, 5], 0) == Some((5, 2)) && CompareUint([0xcc, 5], EncodeUint(6)) == 1
  {
    assert DecodeUint(EncodeUint(6), 0) == Some((6, 1));
  }
}

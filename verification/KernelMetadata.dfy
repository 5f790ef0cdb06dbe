/** getArgInfo: the walk over the metadata note of a code object, and the table of argument sizes
    it fills. XXH64 is a parameter. */
module KernelMetadata {
  import opened Basics
  import opened MsgPackGrammar
  import opened MsgPackNumbers
  import opened MsgPackCheck
  import opened MsgPackParts
  import R = MsgPackRead

  type Bytes = seq<byte>

  predicate IsAscii(s: string) { forall c :: c in s ==> c as int < 128 }

  function Ascii(s: string): Bytes
    requires IsAscii(s)
  {
    seq(|s|, i requires 0 <= i < |s| => CharCode(s, i))
  }

  function CharCode(s: string, i: nat): byte
    requires IsAscii(s) && i < |s|
  {
    assert s[i] in s;
    s[i] as int
  }

  // ----- The document

  function StrOf(o: Obj): Option<Bytes> {
    if o.FixStr? || o.Str? then Some(o.data) else None
  }

  function UintOf(o: Obj): Option<nat>
    requires WellFormed(o)
  {
    match o
    case Single(c) => if c <= 0x7f then Some(c) else None
    case Number(c, d) =>
      if c == 0xcc then Some(Load(d, 0, W8)) else if c == 0xcd then Some(Load(d, 0, W16))
      else if c == 0xce then Some(Load(d, 0, W32)) else if c == 0xcf then Some(LoadU64(d, 0)) else None
    case _ => None
  }

  /** The keys and values of a map, alternating. */
  predicate IsMap(o: Obj) { o.FixMap? || o.Map? }

  predicate IsArray(o: Obj) { o.FixArr? || o.Arr? }

  predicate KeysAreStrings(items: seq<Obj>) {
    forall i :: 0 <= i < |items| / 2 ==> StrOf(items[2 * i]).Some?
  }

  function Key(items: seq<Obj>, i: nat): Bytes
    requires KeysAreStrings(items) && 2 * i + 1 < |items|
  {
    StrOf(items[2 * i]).value
  }

  /** The key is among the first n. */
  predicate HasKey(items: seq<Obj>, n: nat, key: Bytes)
    requires KeysAreStrings(items) && n <= |items| / 2
  {
    n > 0 && (Key(items, n - 1) == key || HasKey(items, n - 1, key))
  }

  /** The recognised keys of an argument carry the expected types, and size and offset are there. */
  predicate ArgumentOk(o: Obj) {
    WellFormed(o) && IsMap(o) && KeysAreStrings(o.items)
    && (forall i :: 0 <= i < |o.items| / 2 ==> ArgumentEntryOk(Key(o.items, i), o.items[2 * i + 1]))
    && HasKey(o.items, |o.items| / 2, Ascii(".size")) && HasKey(o.items, |o.items| / 2, Ascii(".offset"))
  }

  predicate ArgumentEntryOk(key: Bytes, value: Obj) {
    && WellFormed(value)
    && (key == Ascii(".size") || key == Ascii(".offset") ==> UintOf(value).Some?)
    && (key == Ascii(".address_space") || key == Ascii(".value_kind") || key == Ascii(".access") ==> StrOf(value).Some?)
  }

  predicate KernelOk(o: Obj) {
    WellFormed(o) && IsMap(o) && KeysAreStrings(o.items)
    && (forall i :: 0 <= i < |o.items| / 2 ==> KernelEntryOk(Key(o.items, i), o.items[2 * i + 1]))
  }

  predicate KernelEntryOk(key: Bytes, value: Obj) {
    && WellFormed(value)
    && (key == Ascii(".args") ==> IsArray(value) && forall a :: a in value.items ==> ArgumentOk(a))
    && (key == Ascii(".name") ==> StrOf(value).Some?)
  }

  predicate DocumentOk(o: Obj) {
    WellFormed(o) && IsMap(o) && KeysAreStrings(o.items)
    && (forall i :: 0 <= i < |o.items| / 2 ==> DocumentEntryOk(Key(o.items, i), o.items[2 * i + 1]))
  }

  predicate DocumentEntryOk(key: Bytes, value: Obj) {
    && WellFormed(value)
    && (key == Ascii("amdhsa.kernels") ==> IsArray(value) && forall k :: k in value.items ==> KernelOk(k))
  }

  // ----- What the walk makes of it, entry by entry

  datatype ArgInfo = ArgInfo(size: nat, offset: nat, valueKind: Bytes)

  function AfterEntry(info: ArgInfo, key: Bytes, value: Obj): ArgInfo
    requires ArgumentEntryOk(key, value)
  {
    if key == Ascii(".size") then info.(size := UintOf(value).value)
    else if key == Ascii(".offset") then info.(offset := UintOf(value).value)
    else if key == Ascii(".value_kind") && |StrOf(value).value| > 0 then info.(valueKind := StrOf(value).value)
    else info
  }

  /** After the first n entries of an argument; start stands for what is not yet read. */
  function ArgAfter(o: Obj, n: nat, start: ArgInfo): ArgInfo
    requires ArgumentOk(o) && n <= |o.items| / 2
    decreases n
  {
    if n == 0 then start else AfterEntry(ArgAfter(o, n - 1, start), Key(o.items, n - 1), o.items[2 * n - 1])
  }

  const UNREAD := ArgInfo(0, 0, [])

  function ArgOf(o: Obj): ArgInfo
    requires ArgumentOk(o)
  {
    ArgAfter(o, |o.items| / 2, UNREAD)
  }

  function ArgsOf(objs: seq<Obj>, n: nat): seq<ArgInfo>
    requires n <= |objs| && forall a :: a in objs ==> ArgumentOk(a)
  {
    if n == 0 then [] else ArgsOf(objs, n - 1) + [ArgOf(objs[n - 1])]
  }

  datatype Kernel = Kernel(name: Bytes, args: seq<ArgInfo>)

  /** After the first n entries of a kernel; its name starts as that of the kernel before. */
  function KernelAfter(o: Obj, n: nat, name: Bytes): Kernel
    requires KernelOk(o) && n <= |o.items| / 2
    decreases n
  {
    if n == 0 then Kernel(name, [])
    else
      var k, key, value := KernelAfter(o, n - 1, name), Key(o.items, n - 1), o.items[2 * n - 1];
      if key == Ascii(".args") then k.(args := k.args + ArgsOf(value.items, |value.items|))
      else if key == Ascii(".name") then k.(name := StrOf(value).value)
      else k
  }

  function KernelOf(o: Obj, name: Bytes): Kernel
    requires KernelOk(o)
  {
    KernelAfter(o, |o.items| / 2, name)
  }

  function KernelsOf(objs: seq<Obj>, n: nat): seq<Kernel>
    requires n <= |objs| && forall k :: k in objs ==> KernelOk(k)
    ensures |KernelsOf(objs, n)| == n
  {
    if n == 0 then []
    else
      var before := KernelsOf(objs, n - 1);
      before + [KernelOf(objs[n - 1], if n == 1 then [] else before[n - 2].name)]
  }

  /** The kernels of the first n entries of the document. */
  function DocumentAfter(o: Obj, n: nat): seq<Kernel>
    requires DocumentOk(o) && n <= |o.items| / 2
  {
    if n == 0 then []
    else
      var value := o.items[2 * n - 1];
      DocumentAfter(o, n - 1)
      + if Key(o.items, n - 1) == Ascii("amdhsa.kernels") then KernelsOf(value.items, |value.items|) else []
  }

  // ----- The table

  datatype SizeOffset = SizeOffset(size: nat, offset: nat)

  datatype Write = Write(key: Bytes, value: SizeOffset)

  function DecimalBytes(n: nat): Bytes {
    if n < 10 then [48 + n] else DecimalBytes(n / 10) + [48 + n % 10]
  }

  predicate Contains(s: Bytes, t: Bytes) {
    t <= s || (s != [] && Contains(s[1..], t))
  }

  predicate IsHidden(valueKind: Bytes) { Contains(valueKind, Ascii("hidden")) }

  function ArgWrite(k: Kernel, i: nat): Write
    requires i < |k.args|
  {
    var a := k.args[i];
    Write(k.name + DecimalBytes(i), SizeOffset(if IsHidden(a.valueKind) then 0 else a.size, a.offset))
  }

  /** The first n arguments' entries. */
  function ArgWrites(k: Kernel, n: nat): seq<Write>
    requires n <= |k.args|
  {
    if n == 0 then [] else ArgWrites(k, n - 1) + [ArgWrite(k, n - 1)]
  }

  /** An entry for each argument, and one for the kernel with their number. */
  function KernelWrites(k: Kernel): seq<Write> {
    ArgWrites(k, |k.args|) + [Write(k.name, SizeOffset(|k.args|, 0))]
  }

  function Writes(ks: seq<Kernel>): seq<Write> {
    if ks == [] then [] else Writes(ks[..|ks| - 1]) + KernelWrites(ks[|ks| - 1])
  }

  type Hash = Bytes -> nat
  type Table = map<nat, SizeOffset>

  function Apply(table: Table, writes: seq<Write>, hash: Hash): Table {
    if writes == [] then table
    else
      var last := writes[|writes| - 1];
      Apply(table, writes[..|writes| - 1], hash)[hash(last.key) := last.value]
  }

  // ----- What the table holds

  /** Every entry is in the table as written exactly when no later entry that hashes alike
      disagrees with it. */
  lemma {:induction false} HoldsExactlyWithoutClash(table: Table, writes: seq<Write>, hash: Hash)
    ensures (forall w :: w in writes ==> Entry(Apply(table, writes, hash), hash(w.key)) == Some(w.value))
            <==> forall i, j :: 0 <= i < j < |writes| && hash(writes[i].key) == hash(writes[j].key) ==>
                writes[i].value == writes[j].value
  {
    forall w | w in writes && NoClash(writes, hash)
      ensures Entry(Apply(table, writes, hash), hash(w.key)) == Some(w.value)
    {
      var i :| 0 <= i < |writes| && writes[i] == w;
      LastWriteCounts(table, writes, hash, i);
    }
    if forall w :: w in writes ==> Entry(Apply(table, writes, hash), hash(w.key)) == Some(w.value) {
      forall i, j | 0 <= i < j < |writes| && hash(writes[i].key) == hash(writes[j].key)
        ensures writes[i].value == writes[j].value
      {
        assert writes[i] in writes && writes[j] in writes;
      }
    }
  }

  function Entry(table: Table, h: nat): Option<SizeOffset> { if h in table then Some(table[h]) else None }

  ghost predicate NoClash(writes: seq<Write>, hash: Hash) {
    forall i, j :: 0 <= i < j < |writes| && hash(writes[i].key) == hash(writes[j].key) ==>
        writes[i].value == writes[j].value
  }

  /** A slot that is not written to holds what it held before. */
  lemma {:induction false} UnwrittenStays(table: Table, writes: seq<Write>, hash: Hash, key: Bytes)
    requires forall w :: w in writes ==> hash(w.key) != hash(key)
    ensures Entry(Apply(table, writes, hash), hash(key)) == Entry(table, hash(key))
    decreases |writes|
  {
    if writes != [] {
      var n := |writes| - 1;
      assert writes[n] in writes;
      UnwrittenStays(table, writes[..n], hash, key);
    }
  }

  /** A slot holds what was last written to it. */
  lemma {:induction false} LastWriteCounts(table: Table, writes: seq<Write>, hash: Hash, i: nat)
    requires NoClash(writes, hash) && i < |writes|
    ensures Entry(Apply(table, writes, hash), hash(writes[i].key)) == Some(writes[i].value)
    decreases |writes|
  {
    var n := |writes| - 1;
    if i < n && hash(writes[i].key) != hash(writes[n].key) {
      LastWriteCounts(table, writes[..n], hash, i);
    }
  }

  /** Every kernel's entries are among the writes. */
  lemma {:induction false} KernelsAreWritten(ks: seq<Kernel>, k: nat, i: nat)
    requires k < |ks|
    ensures Write(ks[k].name, SizeOffset(|ks[k].args|, 0)) in Writes(ks)
    ensures i < |ks[k].args| ==> ArgWrite(ks[k], i) in Writes(ks)
    decreases |ks|
  {
    var n := |ks| - 1;
    if k < n {
      KernelsAreWritten(ks[..n], k, i);
    } else if i < |ks[k].args| {
      ArgIsWritten(ks[k], i, |ks[k].args|);
    }
  }

  lemma {:induction false} ArgIsWritten(k: Kernel, i: nat, n: nat)
    requires i < n <= |k.args|
    ensures ArgWrite(k, i) in ArgWrites(k, n)
  {
    if i < n - 1 { ArgIsWritten(k, i, n - 1); }
  }

  // ----- Names and kinds, byte by byte

  /** The letters of "hidden" stand in it, one after the other. */
  ghost predicate HoldsHidden(kind: Bytes) {
    exists a: Bytes, b: Bytes :: kind == a + [104, 105, 100, 100, 101, 110] + b
  }

  lemma AtTheStartOrLater(s: Bytes, t: Bytes, a: Bytes, b: Bytes)
    requires s == a + t + b
    ensures t <= s || (a != [] && s[1..] == a[1..] + t + b)
  {
    if a == [] {
      assert s == t + b;
    } else {
      assert s[1..] == a[1..] + t + b;
    }
  }

  lemma {:induction false} ContainsMeans(s: Bytes, t: Bytes)
    ensures Contains(s, t) <==> exists a: Bytes, b: Bytes :: s == a + t + b
  {
    if t <= s {
      assert s == [] + t + s[|t|..];
    } else {
      if s != [] {
        ContainsMeans(s[1..], t);
        if Contains(s[1..], t) {
          var a: Bytes, b: Bytes :| s[1..] == a + t + b;
          assert s == ([s[0]] + a) + t + b;
        }
      }
      forall a: Bytes, b: Bytes | s == a + t + b ensures Contains(s, t) {
        AtTheStartOrLater(s, t, a, b);
      }
    }
  }

  lemma HiddenMeans(kind: Bytes)
    ensures IsHidden(kind) <==> HoldsHidden(kind)
  {
    ContainsMeans(kind, Ascii("hidden"));
    hide Contains;
    assert Ascii("hidden") == [104, 105, 100, 100, 101, 110];
  }

  /** The number that decimal digits stand for, most significant first. */
  ghost function Positional(s: Bytes): int {
    if s == [] then 0 else 10 * Positional(s[..|s| - 1]) + s[|s| - 1] as int - 48
  }

  ghost predicate Digits(s: Bytes) { forall d :: d in s ==> 48 <= d <= 57 }

  /** The decimal numeral of n, without leading zeros. */
  ghost predicate Numeral(s: Bytes, n: nat) {
    s != [] && Digits(s) && (s[0] == 48 ==> |s| == 1) && Positional(s) == n
  }

  lemma FirstDigits(s: Bytes, k: nat)
    requires Digits(s) && k <= |s|
    ensures Digits(s[..k])
  {
    forall d | d in s[..k] ensures d in s {}
  }

  lemma {:induction false} PositionalIsPositive(s: Bytes)
    requires s != [] && Digits(s) && s[0] != 48
    ensures Positional(s) > 0
  {
    var n := |s| - 1;
    assert s[0] in s && s[n] in s;
    FirstDigits(s, n);
    if n > 0 { PositionalIsPositive(s[..n]); }
  }

  lemma LastDigitOf(s: Bytes, n: nat, d: byte)
    ensures Positional(s + [d]) == 10 * Positional(s) + d as int - 48
    ensures 48 <= d <= 57 && Positional(s + [d]) == n && Positional(s) >= 0 ==>
              Positional(s) == n / 10 && d == 48 + n % 10
  {
    assert (s + [d])[..|s|] == s;
  }

  lemma {:induction false} DecimalIsNumeral(n: nat)
    ensures Numeral(DecimalBytes(n), n)
  {
    if n < 10 {
      LastDigitOf([], n, 48 + n);
      assert [] + [48 + n] == [48 + n];
    } else {
      DecimalIsNumeral(n / 10);
      LastDigitOf(DecimalBytes(n / 10), n, 48 + n % 10);
      NoLeadingZero(DecimalBytes(n / 10), n / 10);
    }
  }

  lemma NoLeadingZero(s: Bytes, n: nat)
    requires Numeral(s, n) && n > 0
    ensures s[0] != 48
  {
    if |s| == 1 { assert s == [] + [s[0]]; LastDigitOf([], n, s[0]); }
  }

  lemma WithoutLastDigit(s: Bytes, n: nat)
    requires Numeral(s, n) && |s| > 1
    ensures var k := |s| - 1; n >= 10 && Numeral(s[..k], n / 10) && s[k] == 48 + n % 10
  {
    var k := |s| - 1;
    assert s == s[..k] + [s[k]] && s[k] in s && s[0] in s;
    FirstDigits(s, k);
    PositionalIsPositive(s[..k]);
    LastDigitOf(s[..k], n, s[k]);
    hide Positional, Digits;
  }

  lemma OneDigit(s: Bytes, n: nat)
    requires Numeral(s, n) && |s| == 1
    ensures n < 10 && s == [48 + n]
  {
    assert s == [] + [s[0]] && s[0] in s;
    LastDigitOf([], n, s[0]);
  }

  lemma {:induction false} NumeralIsDecimal(s: Bytes, n: nat)
    requires Numeral(s, n)
    ensures s == DecimalBytes(n)
    decreases n
  {
    assert s != [];
    hide Numeral;
    var k := |s| - 1;
    if k == 0 {
      OneDigit(s, n);
    } else {
      WithoutLastDigit(s, n);
      NumeralIsDecimal(s[..k], n / 10);
      assert s == s[..k] + [s[k]];
    }
  }

  /** What is looked up in the document, in bytes. */
  lemma KeysInBytes()
    ensures Ascii("amdhsa.kernels") == [97, 109, 100, 104, 115, 97, 46, 107, 101, 114, 110, 101, 108, 115]
    ensures Ascii(".args") == [46, 97, 114, 103, 115] && Ascii(".name") == [46, 110, 97, 109, 101]
    ensures Ascii(".size") == [46, 115, 105, 122, 101] && Ascii(".offset") == [46, 111, 102, 102, 115, 101, 116]
    ensures Ascii(".value_kind") == [46, 118, 97, 108, 117, 101, 95, 107, 105, 110, 100]
  {
  }

  lemma UintIsBig(o: Obj)
    requires WellFormed(o) && Standard(o) && o.Number? && 0xcc <= o.c <= 0xcf
    ensures R.ValueOf(o) == R.Int(R.Big(o.data)) && UintOf(o) == Some(R.Big(o.data))
  {
    var d := o.data;
    if o.c == 0xcf {
      R.LoadU64IsBig(d);
      hide R.Big, LoadU64;
    } else {
      var w := if o.c == 0xcc then W8 else if o.c == 0xcd then W16 else W32;
      R.LoadIsBig(d, 0, w);
      assert d[0..|d|] == d;
      hide Load, R.Big;
    }
  }

  /** Strings and unsigned numbers of the document are those a reader of MessagePack finds. */
  lemma FieldsAreRead(o: Obj)
    requires WellFormed(o) && Standard(o)
    ensures forall d :: StrOf(o) == Some(d) <==> R.ValueOf(o) == R.Text(d)
    ensures UintOf(o).Some? <==> R.ValueOf(o).Int? && Encode(o)[0] <= 0xcf
    ensures UintOf(o).Some? ==> R.ValueOf(o) == R.Int(UintOf(o).value)
  {
    EncodeUnfolds(o);
    if o.Number? && 0xcc <= o.c <= 0xcf { UintIsBig(o); }
    hide Load, LoadU64, R.Big, R.Signed, EncodeAll, Encode;
  }

  /** If the names and names with an index that are written are all different, and the hash keeps
      them apart, the table holds each kernel's number of arguments and each argument's size (0 if
      hidden) and offset. */
  lemma TableHoldsTheKernels(table: Table, ks: seq<Kernel>, hash: Hash, k: nat, i: nat, numeral: Bytes)
    requires k < |ks| && Numeral(numeral, i)
    requires forall i, j :: 0 <= i < j < |Writes(ks)| ==> hash(Writes(ks)[i].key) != hash(Writes(ks)[j].key)
    ensures Entry(Apply(table, Writes(ks), hash), hash(ks[k].name)) == Some(SizeOffset(|ks[k].args|, 0))
    ensures i < |ks[k].args| ==>
            var a := ks[k].args[i];
            Entry(Apply(table, Writes(ks), hash), hash(ks[k].name + numeral))
            == Some(SizeOffset(if HoldsHidden(a.valueKind) then 0 else a.size, a.offset))
  {
    NumeralIsDecimal(numeral, i);
    KernelsAreWritten(ks, k, i);
    HoldsExactlyWithoutClash(table, Writes(ks), hash);
    hide Writes;
    var w := Write(ks[k].name, SizeOffset(|ks[k].args|, 0));
    assert w in Writes(ks) && hash(w.key) == hash(ks[k].name);
    if i < |ks[k].args| {
      var v := ArgWrite(ks[k], i);
      HiddenMeans(ks[k].args[i].valueKind);
      assert v in Writes(ks) && hash(v.key) == hash(ks[k].name + numeral);
    }
  }

  /** A kernel "k" with one argument and a kernel "k0" clash, whatever the hash: the argument's
      entry is gone. */
  lemma NamesCanClash(table: Table, hash: Hash, a: ArgInfo)
    requires a.offset != 0
    ensures var k, k0 := Kernel([107], [a]), Kernel([107, 48], []);
            && ArgWrite(k, 0).key == k0.name
            && Entry(Apply(table, Writes([k, k0]), hash), hash(ArgWrite(k, 0).key)) != Some(ArgWrite(k, 0).value)
  {
    var k, k0 := Kernel([107], [a]), Kernel([107, 48], []);
    assert [k, k0][..1] == [k];
    assert Writes([k, k0]) == Writes([k]) + KernelWrites(k0);
    assert KernelWrites(k0) == [Write(k0.name, SizeOffset(0, 0))];
    var all := Writes([k, k0]);
    assert all[|all| - 1] == Write(k0.name, SizeOffset(0, 0));
  }

  // ----- Key order does not matter

  ghost predicate DistinctKeys(items: seq<Obj>)
    requires KeysAreStrings(items)
  {
    forall i, j :: 0 <= i < j < |items| / 2 ==> Key(items, i) != Key(items, j)
  }

  lemma FieldNamesDiffer()
    ensures Ascii(".size") != Ascii(".offset") && Ascii(".size") != Ascii(".value_kind")
    ensures Ascii(".offset") != Ascii(".value_kind")
    ensures Ascii(".access") != Ascii(".offset") && Ascii(".access") != Ascii(".size")
    ensures Ascii(".access") != Ascii(".value_kind")
    ensures Ascii(".address_space") != Ascii(".size") && Ascii(".address_space") != Ascii(".offset")
    ensures Ascii(".address_space") != Ascii(".value_kind")
    ensures Ascii(".args") != Ascii(".name")
  {
    assert Ascii(".args")[1] == 97 && Ascii(".name")[1] == 110;
    assert Ascii(".access")[1] == 97 && Ascii(".offset")[1] == 111;
  }

  lemma {:induction false} ArgumentIsItsEntries(o: Obj, n: nat, start: ArgInfo, i: nat)
    requires ArgumentOk(o) && DistinctKeys(o.items) && i < n <= |o.items| / 2
    ensures Key(o.items, i) == Ascii(".size") ==> ArgAfter(o, n, start).size == UintOf(o.items[2 * i + 1]).value
    ensures Key(o.items, i) == Ascii(".offset") ==> ArgAfter(o, n, start).offset == UintOf(o.items[2 * i + 1]).value
    ensures Key(o.items, i) == Ascii(".value_kind") && |StrOf(o.items[2 * i + 1]).value| > 0 ==>
              ArgAfter(o, n, start).valueKind == StrOf(o.items[2 * i + 1]).value
    decreases n
  {
    FieldNamesDiffer();
    hide UintOf, Ascii, WellFormed;
    if i < n - 1 {
      ArgumentIsItsEntries(o, n - 1, start, i);
      assert Key(o.items, i) != Key(o.items, n - 1);
    }
  }

  lemma {:induction false} KernelIsItsEntries(o: Obj, n: nat, name: Bytes, i: nat)
    requires KernelOk(o) && DistinctKeys(o.items) && i < n <= |o.items| / 2
    ensures Key(o.items, i) == Ascii(".args") ==>
              var args := o.items[2 * i + 1].items; KernelAfter(o, n, name).args == ArgsOf(args, |args|)
    ensures Key(o.items, i) == Ascii(".name") ==> KernelAfter(o, n, name).name == StrOf(o.items[2 * i + 1]).value
    decreases n
  {
    FieldNamesDiffer();
    hide UintOf, Ascii, ArgsOf, StrOf, WellFormed, ArgumentOk, Key, KeysAreStrings;
    if i < n - 1 {
      KernelIsItsEntries(o, n - 1, name, i);
      assert Key(o.items, i) != Key(o.items, n - 1);
    } else {
      MissingEntries(o, n - 1, name);
      assert forall j :: 0 <= j < n - 1 ==> Key(o.items, j) != Key(o.items, i);
    }
  }

  /** Without the key nothing is added: no arguments, and the name of the kernel before. */
  lemma {:induction false} MissingEntries(o: Obj, n: nat, name: Bytes)
    requires KernelOk(o) && n <= |o.items| / 2
    ensures (forall i :: 0 <= i < n ==> Key(o.items, i) != Ascii(".args")) ==> KernelAfter(o, n, name).args == []
    ensures (forall i :: 0 <= i < n ==> Key(o.items, i) != Ascii(".name")) ==> KernelAfter(o, n, name).name == name
    decreases n
  {
    if n > 0 { MissingEntries(o, n - 1, name); }
  }

  // ----- From the document to the table

  /** Entry i of a map has the given key. */
  ghost predicate Named(o: Obj, i: nat, name: string) {
    IsMap(o) && KeysAreStrings(o.items) && i < |o.items| / 2 && IsAscii(name) && Key(o.items, i) == Ascii(name)
  }

  function At(o: Obj, i: nat): Obj
    requires IsMap(o) && i < |o.items| / 2
  {
    o.items[2 * i + 1]
  }

  function Elements(o: Obj): seq<Obj> {
    if IsArray(o) then o.items else []
  }

  lemma KernelsAt(o: Obj, d: nat)
    requires DocumentOk(o) && Named(o, d, "amdhsa.kernels")
    ensures IsArray(At(o, d)) && forall k :: k in Elements(At(o, d)) ==> KernelOk(k)
  {
    hide WellFormed, StrOf, KernelOk, Ascii;
    assert DocumentEntryOk(Key(o.items, d), o.items[2 * d + 1]);
  }

  lemma ArgumentsAt(o: Obj, q: nat)
    requires KernelOk(o) && Named(o, q, ".args")
    ensures IsArray(At(o, q)) && forall a :: a in Elements(At(o, q)) ==> ArgumentOk(a)
  {
    hide WellFormed, StrOf, ArgumentOk, Ascii;
    assert KernelEntryOk(Key(o.items, q), o.items[2 * q + 1]);
  }

  lemma {:induction false} DocumentIsItsKernels(o: Obj, n: nat, d: nat)
    requires DocumentOk(o) && DistinctKeys(o.items) && Named(o, d, "amdhsa.kernels") && n <= |o.items| / 2
    requires forall k :: k in Elements(At(o, d)) ==> KernelOk(k)
    ensures DocumentAfter(o, n) == if d < n then KernelsOf(Elements(At(o, d)), |Elements(At(o, d))|) else []
    decreases n
  {
    hide WellFormed, StrOf, KernelOk, Ascii, KernelsOf, DocumentEntryOk;
    if n > 0 {
      DocumentIsItsKernels(o, n - 1, d);
      KernelsAt(o, d);
      assert 2 * (n - 1) + 1 == 2 * n - 1;
      if d < n - 1 { assert Key(o.items, d) != Key(o.items, n - 1); }
      if n - 1 < d { assert Key(o.items, n - 1) != Key(o.items, d); }
    }
  }

  lemma {:induction false} KernelInList(objs: seq<Obj>, n: nat, k: nat) returns (name: Bytes)
    requires k < n <= |objs| && forall o :: o in objs ==> KernelOk(o)
    ensures KernelsOf(objs, n)[k] == KernelOf(objs[k], name)
  {
    hide KernelOk, KernelOf;
    if k < n - 1 {
      name := KernelInList(objs, n - 1, k);
    } else {
      name := if n == 1 then [] else KernelsOf(objs, n - 1)[n - 2].name;
    }
  }

  lemma {:induction false} ArgInList(objs: seq<Obj>, n: nat, i: nat)
    requires i < n <= |objs| && forall o :: o in objs ==> ArgumentOk(o)
    ensures |ArgsOf(objs, n)| == n && ArgsOf(objs, n)[i] == ArgOf(objs[i])
  {
    hide ArgumentOk, ArgOf;
    if n > 1 { ArgInList(objs, n - 1, if i < n - 1 then i else 0); }
  }

  lemma ArgsCount(objs: seq<Obj>)
    requires forall o :: o in objs ==> ArgumentOk(o)
    ensures |ArgsOf(objs, |objs|)| == |objs|
  {
    hide ArgumentOk, ArgOf;
    if objs != [] { ArgInList(objs, |objs|, 0); }
  }

  /** Kernel k of the document, with its name and arguments by their keys. */
  lemma KernelInDocument(o: Obj, d: nat, k: nat, p: nat, q: nat)
    requires DocumentOk(o) && DistinctKeys(o.items) && Named(o, d, "amdhsa.kernels") && k < |Elements(At(o, d))|
    requires var kernel := Elements(At(o, d))[k];
             Named(kernel, p, ".name") && Named(kernel, q, ".args") && DistinctKeys(kernel.items)
    ensures var kernel, ks := Elements(At(o, d))[k], DocumentAfter(o, |o.items| / 2);
            && KernelOk(kernel) && (forall a :: a in Elements(At(kernel, q)) ==> ArgumentOk(a))
            && k < |ks| && Some(ks[k].name) == StrOf(At(kernel, p))
            && ks[k].args == ArgsOf(Elements(At(kernel, q)), |Elements(At(kernel, q))|)
  {
    hide WellFormed, StrOf, KernelOk, DocumentOk, ArgumentOk, Ascii, KernelsOf, DocumentAfter, DistinctKeys, ArgsOf,
         KernelAfter;
    KernelsAt(o, d);
    var objs := Elements(At(o, d));
    var kernel := objs[k];
    assert kernel in objs;
    DocumentIsItsKernels(o, |o.items| / 2, d);
    var name := KernelInList(objs, |objs|, k);
    ArgumentsAt(kernel, q);
    NameAt(kernel, p);
    KernelIsItsEntries(kernel, |kernel.items| / 2, name, p);
    KernelIsItsEntries(kernel, |kernel.items| / 2, name, q);
  }

  lemma NameAt(o: Obj, p: nat)
    requires KernelOk(o) && Named(o, p, ".name")
    ensures StrOf(At(o, p)).Some?
  {
    hide WellFormed, StrOf, Ascii;
    assert KernelEntryOk(Key(o.items, p), o.items[2 * p + 1]);
  }

  /** The kind of an argument stays unread as long as its entry is empty. */
  lemma {:induction false} EmptyKind(o: Obj, n: nat, w: nat)
    requires ArgumentOk(o) && DistinctKeys(o.items) && n <= |o.items| / 2
    requires Named(o, w, ".value_kind") && StrOf(At(o, w)) == Some([])
    ensures ArgAfter(o, n, UNREAD).valueKind == []
    decreases n
  {
    hide UintOf, WellFormed, HasKey, Ascii;
    if n > 0 {
      EmptyKind(o, n - 1, w);
      assert 2 * (n - 1) + 1 == 2 * n - 1;
      if w < n - 1 { assert Key(o.items, w) != Key(o.items, n - 1); }
      if n - 1 < w { assert Key(o.items, n - 1) != Key(o.items, w); }
    }
  }

  /** An argument by its keys. */
  lemma ArgumentByKeys(o: Obj, u: nat, v: nat, w: nat)
    requires ArgumentOk(o) && DistinctKeys(o.items)
    requires Named(o, u, ".size") && Named(o, v, ".offset") && Named(o, w, ".value_kind")
    ensures WellFormed(At(o, u)) && WellFormed(At(o, v)) && UintOf(At(o, u)) == Some(ArgOf(o).size)
    ensures UintOf(At(o, v)) == Some(ArgOf(o).offset)
    ensures StrOf(At(o, w)) == Some(ArgOf(o).valueKind)
  {
    hide UintOf, WellFormed, HasKey, Ascii, StrOf, ArgAfter, DistinctKeys;
    assert ArgumentEntryOk(Key(o.items, u), o.items[2 * u + 1]);
    assert ArgumentEntryOk(Key(o.items, v), o.items[2 * v + 1]);
    assert ArgumentEntryOk(Key(o.items, w), o.items[2 * w + 1]);
    var n := |o.items| / 2;
    ArgumentIsItsEntries(o, n, UNREAD, u);
    ArgumentIsItsEntries(o, n, UNREAD, v);
    ArgumentIsItsEntries(o, n, UNREAD, w);
    if StrOf(At(o, w)) == Some([]) { EmptyKind(o, n, w); }
  }

  function Text(o: Obj): Bytes { if StrOf(o).Some? then StrOf(o).value else [] }

  function Number(o: Obj): nat { if WellFormed(o) && UintOf(o).Some? then UintOf(o).value else 0 }

  /** The value of entry i, where there is one. */
  function ValueAt(o: Obj, i: nat): Obj {
    if IsMap(o) && i < |o.items| / 2 then At(o, i) else o
  }

  /** The kernel is number k of the document, and p and q are its entries for name and arguments. */
  ghost predicate IsKernel(o: Obj, d: nat, k: nat, kernel: Obj, p: nat, q: nat) {
    && DocumentOk(o) && DistinctKeys(o.items) && Named(o, d, "amdhsa.kernels")
    && k < |Elements(At(o, d))| && kernel == Elements(At(o, d))[k]
    && Named(kernel, p, ".name") && Named(kernel, q, ".args") && DistinctKeys(kernel.items)
  }

  /** The argument is number i of the kernel, and u, v, w are its entries for size, offset and kind. */
  ghost predicate IsArgument(kernel: Obj, q: nat, i: nat, arg: Obj, u: nat, v: nat, w: nat) {
    && i < |Elements(ValueAt(kernel, q))| && arg == Elements(ValueAt(kernel, q))[i]
    && Named(arg, u, ".size") && Named(arg, v, ".offset") && Named(arg, w, ".value_kind") && DistinctKeys(arg.items)
  }

  function Described(o: Obj): seq<Kernel>
    requires DocumentOk(o)
  {
    DocumentAfter(o, |o.items| / 2)
  }

  lemma KernelIs(o: Obj, d: nat, k: nat, kernel: Obj, p: nat, q: nat)
    requires IsKernel(o, d, k, kernel, p, q)
    ensures DocumentOk(o) && IsMap(kernel) && (forall a :: a in Elements(ValueAt(kernel, q)) ==> ArgumentOk(a))
    ensures var ks, objs := Described(o), Elements(ValueAt(kernel, q));
            k < |ks| && ks[k].name == Text(ValueAt(kernel, p)) && ks[k].args == ArgsOf(objs, |objs|)
  {
    hide WellFormed, StrOf, KernelOk, DocumentOk, ArgumentOk, Ascii, KernelsOf, DocumentAfter, DistinctKeys, ArgsOf;
    KernelInDocument(o, d, k, p, q);
  }

  /** The table getArgInfo leaves. */
  function TableAfter(table: Table, o: Obj, hash: Hash): Table
    requires DocumentOk(o)
  {
    Apply(table, Writes(Described(o)), hash)
  }

  lemma TableAfterIs(table: Table, o: Obj, hash: Hash)
    requires DocumentOk(o)
    ensures TableAfter(table, o, hash) == Apply(table, Writes(DocumentAfter(o, |o.items| / 2)), hash)
  {
  }

  ghost predicate HashesDiffer(o: Obj, hash: Hash)
    requires DocumentOk(o)
  {
    var writes := Writes(Described(o));
    forall i, j :: 0 <= i < j < |writes| ==> hash(writes[i].key) != hash(writes[j].key)
  }

  /** From the note to the table: with distinct keys in the document and its kernel, and no two of
      the written names hashing alike, the table has, under the hash of the kernel's name, its
      number of arguments. */
  lemma KernelReachesTheTable(table: Table, o: Obj, hash: Hash, d: nat, k: nat, kernel: Obj, p: nat, q: nat)
    requires IsKernel(o, d, k, kernel, p, q) && DocumentOk(o) && HashesDiffer(o, hash)
    ensures Entry(TableAfter(table, o, hash), hash(Text(ValueAt(kernel, p))))
            == Some(SizeOffset(|Elements(ValueAt(kernel, q))|, 0))
  {
    hide IsKernel, DocumentOk, ArgumentOk, Described, ArgsOf, Writes, Apply, Entry, Text, Elements, ValueAt,
         Numeral, HoldsHidden, Ascii, DecimalBytes;
    KernelIs(o, d, k, kernel, p, q);
    ArgsCount(Elements(ValueAt(kernel, q)));
    DecimalIsNumeral(0);
    TableHoldsTheKernels(table, Described(o), hash, k, 0, DecimalBytes(0));
  }

  /** And under the hash of the name followed by an argument's index its offset, and its size
      unless it is hidden. */
  lemma ArgumentReachesTheTable(table: Table, o: Obj, hash: Hash, d: nat, k: nat, kernel: Obj, p: nat, q: nat,
                                i: nat, arg: Obj, u: nat, v: nat, w: nat, numeral: Bytes)
    requires IsKernel(o, d, k, kernel, p, q) && DocumentOk(o) && HashesDiffer(o, hash)
    requires IsArgument(kernel, q, i, arg, u, v, w) && Numeral(numeral, i)
    ensures Entry(TableAfter(table, o, hash), hash(Text(ValueAt(kernel, p)) + numeral))
            == Some(SizeOffset(if HoldsHidden(Text(ValueAt(arg, w))) then 0 else Number(ValueAt(arg, u)),
                               Number(ValueAt(arg, v))))
  {
    hide IsKernel, DocumentOk, ArgumentOk, Described, ArgsOf, ArgOf, Writes, Apply, Entry, Text, Number, Elements,
         ValueAt, Numeral, HoldsHidden, IsArgument, Ascii;
    KernelIs(o, d, k, kernel, p, q);
    var args := Elements(ValueAt(kernel, q));
    ArgumentIs(kernel, q, i, arg, u, v, w);
    ArgsCount(args);
    ArgInList(args, |args|, i);
    TableHoldsTheKernels(table, Described(o), hash, k, i, numeral);
  }

  lemma ArgumentIs(kernel: Obj, q: nat, i: nat, arg: Obj, u: nat, v: nat, w: nat)
    requires IsArgument(kernel, q, i, arg, u, v, w) && forall a :: a in Elements(ValueAt(kernel, q)) ==> ArgumentOk(a)
    ensures i < |Elements(ValueAt(kernel, q))| && arg == Elements(ValueAt(kernel, q))[i] && ArgumentOk(arg)
    ensures ArgOf(arg) == ArgInfo(Number(ValueAt(arg, u)), Number(ValueAt(arg, v)), Text(ValueAt(arg, w)))
  {
    hide ArgumentOk, ArgOf, StrOf, UintOf, DistinctKeys, Ascii, Elements;
    assert arg in Elements(ValueAt(kernel, q));
    ArgumentByKeys(arg, u, v, w);
  }

  // ----- Decoding headers: the value and the position behind it

  function DecodeMap(data: Bytes, pos: nat): Option<(nat, nat)> {
    if pos >= |data| then None
    else if 0x80 <= data[pos] <= 0x8f then Some((data[pos] - 0x80, pos + 1))
    else if data[pos] == 0xde && pos + 3 <= |data| then Some((Load(data, pos + 1, W16), pos + 3))
    else if data[pos] == 0xdf && pos + 5 <= |data| then Some((Load(data, pos + 1, W32), pos + 5))
    else None
  }

  function DecodeArray(data: Bytes, pos: nat): Option<(nat, nat)> {
    if pos >= |data| then None
    else if 0x90 <= data[pos] <= 0x9f then Some((data[pos] - 0x90, pos + 1))
    else if data[pos] == 0xdc && pos + 3 <= |data| then Some((Load(data, pos + 1, W16), pos + 3))
    else if data[pos] == 0xdd && pos + 5 <= |data| then Some((Load(data, pos + 1, W32), pos + 5))
    else None
  }

  function DecodeStrl(data: Bytes, pos: nat): Option<(nat, nat)> {
    if pos >= |data| then None
    else if 0xa0 <= data[pos] <= 0xbf then Some((data[pos] - 0xa0, pos + 1))
    else if data[pos] == 0xd9 && pos + 2 <= |data| then Some((Load(data, pos + 1, W8), pos + 2))
    else if data[pos] == 0xda && pos + 3 <= |data| then Some((Load(data, pos + 1, W16), pos + 3))
    else if data[pos] == 0xdb && pos + 5 <= |data| then Some((Load(data, pos + 1, W32), pos + 5))
    else None
  }

  lemma FieldHeader(data: Bytes, pos: nat, o: Obj)
    requires WellFormedHead(o) && (o.Str? || o.Arr? || o.Map?) && StartsAt(HeadBytes(o), data, pos)
    ensures pos + |HeadBytes(o)| <= |data| && |HeadBytes(o)| >= 1 + Field(o.w) && (o.Arr? || o.Map? ==> !o.w.W8?)
    ensures data[pos] == (if o.Str? then 0xd9 else if o.Arr? then 0xdb else 0xdd) + o.w.Index()
    ensures Load(data, pos + 1, o.w) == if o.Str? then |o.data| else if o.Arr? then |o.items| else |o.items| / 2
    ensures |HeadBytes(o)| == 1 + Field(o.w) + if o.Str? then |o.data| else 0
  {
    hide Load, BigEndian;
    var h := HeadBytes(o);
    FieldOf(data, pos, h, if o.Str? then |o.data| else if o.Arr? then |o.items| else |o.items| / 2, o.w);
  }

  lemma FixHeader(data: Bytes, pos: nat, o: Obj)
    requires WellFormedHead(o) && (o.FixStr? || o.FixArr? || o.FixMap?) && StartsAt(HeadBytes(o), data, pos)
    ensures pos + |HeadBytes(o)| <= |data| && |HeadBytes(o)| == 1 + if o.FixStr? then |o.data| else 0
    ensures data[pos] == if o.FixStr? then 0xa0 + |o.data| else if o.FixArr? then 0x90 + |o.items|
        else 0x80 + |o.items| / 2
  {
    FirstByte(data, pos, HeadBytes(o));
  }

  lemma MapHeader(data: Bytes, pos: nat, o: Obj)
    requires WellFormed(o) && IsMap(o) && StartsAt(Encode(o), data, pos)
    ensures AllWellFormed(o.items) && |o.items| % 2 == 0
    ensures exists next: nat :: DecodeMap(data, pos) == Some((|o.items| / 2, next)) && Placed(data, next, o.items)
                                && next + |EncodeAll(o.items)| == pos + |Encode(o)|
  {
    HeaderComesFirst(data, pos, o);
    hide Encode, HeadBytes, Load, StartsAt;
    if o.FixMap? { FixHeader(data, pos, o); } else { FieldHeader(data, pos, o); }
    assert DecodeMap(data, pos) == Some((|o.items| / 2, pos + |HeadBytes(o)|));
  }

  lemma ArrayHeader(data: Bytes, pos: nat, o: Obj)
    requires WellFormed(o) && IsArray(o) && StartsAt(Encode(o), data, pos)
    ensures AllWellFormed(o.items)
    ensures exists next: nat :: DecodeArray(data, pos) == Some((|o.items|, next)) && Placed(data, next, o.items)
                                && next + |EncodeAll(o.items)| == pos + |Encode(o)|
  {
    HeaderComesFirst(data, pos, o);
    hide Encode, HeadBytes, Load, StartsAt;
    if o.FixArr? { FixHeader(data, pos, o); } else { FieldHeader(data, pos, o); }
    assert DecodeArray(data, pos) == Some((|o.items|, pos + |HeadBytes(o)|));
  }

  /** mp_decode_str */
  method DecodeStr(data: Bytes, r: nat, ghost o: Obj) returns (s: Bytes, r': nat)
    requires WellFormed(o) && StrOf(o).Some? && StartsAt(Encode(o), data, r)
    ensures s == StrOf(o).value && r' == r + |Encode(o)|
  {
    StrHeader(data, r, o);
    var (len, next) := DecodeStrl(data, r).value;
    s := data[next..next + len];
    r' := next + len;
  }

  lemma StrHeader(data: Bytes, pos: nat, o: Obj)
    requires WellFormed(o) && StrOf(o).Some? && StartsAt(Encode(o), data, pos)
    ensures DecodeStrl(data, pos).Some?
    ensures var (len, next) := DecodeStrl(data, pos).value;
            len == |o.data| && next + len == pos + |Encode(o)| <= |data| && data[next..next + len] == o.data
  {
    var h := HeadBytes(o);
    assert Encode(o) == h;
    hide Load, BigEndian;
    var k := |h| - |o.data|;
    assert h == h[..k] + o.data;
    SplitStart(h[..k], o.data, data, pos);
    if o.FixStr? { FixHeader(data, pos, o); } else { FieldHeader(data, pos, o); }
  }

  lemma UintHeader(data: Bytes, pos: nat, o: Obj)
    requires WellFormed(o) && UintOf(o).Some? && StartsAt(Encode(o), data, pos)
    ensures DecodeUint(data, pos) == Some((UintOf(o).value, pos + |Encode(o)|))
  {
    var h := HeadBytes(o);
    assert Encode(o) == h;
    FirstByte(data, pos, h);
    if o.Number? {
      SplitStart([o.c], o.data, data, pos);
      LoadsAlike(data, pos + 1, o.data);
    }
    hide Load, LoadU64;
  }

  // ----- The walk

  /** mp_decode_map: the number of pairs, and the cursor at the first key. */
  method ReadMap(data: Bytes, r: nat, ghost o: Obj) returns (count: nat, r': nat)
    requires WellFormed(o) && IsMap(o) && StartsAt(Encode(o), data, r)
    ensures |o.items| == 2 * count && Placed(data, r', o.items) && AllWellFormed(o.items)
    ensures r' + |EncodeAll(o.items)| == r + |Encode(o)|
  {
    MapHeader(data, r, o);
    hide Encode, EncodeAll, DecodeMap, StartsAt;
    count, r' := DecodeMap(data, r).value.0, DecodeMap(data, r).value.1;
  }

  method ReadArray(data: Bytes, r: nat, ghost o: Obj) returns (count: nat, r': nat)
    requires WellFormed(o) && IsArray(o) && StartsAt(Encode(o), data, r)
    ensures |o.items| == count && Placed(data, r', o.items) && AllWellFormed(o.items)
    ensures r' + |EncodeAll(o.items)| == r + |Encode(o)|
  {
    ArrayHeader(data, r, o);
    hide Encode, EncodeAll, DecodeArray, StartsAt;
    count, r' := DecodeArray(data, r).value.0, DecodeArray(data, r).value.1;
  }

  /** One entry of an argument. */
  method ReadArgumentEntry(data: Bytes, r: nat, info: ArgInfo, ghost key: Obj, ghost value: Obj)
    returns (info': ArgInfo, r': nat)
    requires WellFormed(key) && StrOf(key).Some? && ArgumentEntryOk(StrOf(key).value, value)
    requires StartsAt(Encode(key), data, r) && StartsAt(Encode(value), data, r + |Encode(key)|)
    ensures info' == AfterEntry(info, StrOf(key).value, value) && r' == r + |Encode(key)| + |Encode(value)|
  {
    FieldNamesDiffer();
    hide StartsAt, Encode, WellFormed, Ascii, Skip, UintOf, DecodeUint;
    var argKey;
    argKey, r' := DecodeStr(data, r, key);
    info' := info;
    if argKey == Ascii(".address_space") {
      var addressSpace;
      addressSpace, r' := DecodeStr(data, r', value);
    } else if argKey == Ascii(".size") {
      UintHeader(data, r', value);
      info', r' := info.(size := DecodeUint(data, r').value.0), DecodeUint(data, r').value.1;
    } else if argKey == Ascii(".offset") {
      UintHeader(data, r', value);
      info', r' := info.(offset := DecodeUint(data, r').value.0), DecodeUint(data, r').value.1;
    } else if argKey == Ascii(".value_kind") {
      var valueKind;
      valueKind, r' := DecodeStr(data, r', value);
      if |valueKind| > 0 {
        info' := info.(valueKind := valueKind);
      }
    } else if argKey == Ascii(".access") {
      var access;
      access, r' := DecodeStr(data, r', value);
    } else {
      NextPassesObject(data, r', value);
      r' := MpNext(data, r');
    }
  }

  /** Size and offset are read before they are used, so what they held before does not matter. */
  lemma {:induction false} StartDoesNotMatter(o: Obj, n: nat, size: nat, offset: nat)
    requires ArgumentOk(o) && n <= |o.items| / 2
    ensures var a, b := ArgAfter(o, n, ArgInfo(size, offset, [])), ArgAfter(o, n, UNREAD);
            && a.valueKind == b.valueKind
            && (HasKey(o.items, n, Ascii(".size")) ==> a.size == b.size)
            && (HasKey(o.items, n, Ascii(".offset")) ==> a.offset == b.offset)
  {
    FieldNamesDiffer();
    hide UintOf, Ascii, WellFormed;
    if n > 0 { StartDoesNotMatter(o, n - 1, size, offset); }
  }

  lemma EntryOf(o: Obj, i: nat)
    requires WellFormed(o) && IsMap(o) && KeysAreStrings(o.items) && i < |o.items| / 2
    ensures StrOf(o.items[2 * i]).Some? && Key(o.items, i) == StrOf(o.items[2 * i]).value
    ensures ArgumentOk(o) ==> ArgumentEntryOk(Key(o.items, i), o.items[2 * i + 1])
    ensures KernelOk(o) ==> KernelEntryOk(Key(o.items, i), o.items[2 * i + 1])
    ensures DocumentOk(o) ==> DocumentEntryOk(Key(o.items, i), o.items[2 * i + 1])
  {
    hide ArgumentEntryOk, KernelEntryOk, DocumentEntryOk, WellFormed;
  }

  lemma ArgAfterNext(o: Obj, i: nat, start: ArgInfo)
    requires ArgumentOk(o) && i < |o.items| / 2
    ensures ArgumentEntryOk(Key(o.items, i), o.items[2 * i + 1])
    ensures ArgAfter(o, i + 1, start) == AfterEntry(ArgAfter(o, i, start), Key(o.items, i), o.items[2 * i + 1])
  {
    hide AfterEntry, ArgumentEntryOk, WellFormed, Ascii;
    assert 2 * (i + 1) - 1 == 2 * i + 1;
  }

  lemma NextArgumentPair(data: Bytes, o: Obj, start: nat, i: nat, r: nat, unread: ArgInfo)
    requires ArgumentOk(o) && i < |o.items| / 2 && Placed(data, start, o.items) && Behind(o.items, start, 2 * i, r)
    ensures var key, value := o.items[2 * i], o.items[2 * i + 1];
            && WellFormed(key) && StrOf(key).Some? && ArgumentEntryOk(StrOf(key).value, value)
            && StartsAt(Encode(key), data, r) && StartsAt(Encode(value), data, r + |Encode(key)|)
            && Behind(o.items, start, 2 * (i + 1), r + |Encode(key)| + |Encode(value)|)
            && ArgAfter(o, i + 1, unread) == AfterEntry(ArgAfter(o, i, unread), StrOf(key).value, value)
  {
    hide Placed, Behind, StartsAt, Encode, EncodeAll, WellFormed, StrOf, Ascii, ArgumentEntryOk, ArgAfter, AfterEntry;
    NextPair(data, o.items, start, i, r);
    EntryOf(o, i);
    ArgAfterNext(o, i, unread);
  }

  /** One element of .args; its ArgInfo is not initialised, but for the string. */
  method ReadArgument(data: Bytes, r: nat, ghost o: Obj) returns (info: ArgInfo, r': nat)
    requires ArgumentOk(o) && StartsAt(Encode(o), data, r)
    ensures info == ArgOf(o) && r' == r + |Encode(o)|
  {
    hide *;
    ArgumentIsMap(o);
    var argMapSize;
    argMapSize, r' := ReadMap(data, r, o);
    var size: nat, offset: nat := *, *;
    info := ArgInfo(size, offset, []);
    ghost var start, unread, items := r', info, o.items;
    ArgStarts(o, unread);
    BehindNone(items, start);
    for i := 0 to argMapSize
      invariant Behind(items, start, 2 * i, r') && info == ArgAfter(o, i, unread)
    {
      NextArgumentPair(data, o, start, i, r', unread);
      info, r' := ReadArgumentEntry(data, r', info, items[2 * i], items[2 * i + 1]);
    }
    BehindAll(items, start, r');
    ArgEnds(o, size, offset);
  }

  lemma ArgumentIsMap(o: Obj)
    requires ArgumentOk(o)
    ensures WellFormed(o) && IsMap(o) && (o.FixMap? || o.Map?)
  {
  }

  lemma ArgStarts(o: Obj, start: ArgInfo)
    requires ArgumentOk(o)
    ensures ArgAfter(o, 0, start) == start
  {
  }

  lemma ArgEnds(o: Obj, size: nat, offset: nat)
    requires ArgumentOk(o)
    ensures ArgAfter(o, |o.items| / 2, ArgInfo(size, offset, [])) == ArgOf(o)
  {
    StartDoesNotMatter(o, |o.items| / 2, size, offset);
    hide ArgAfter, WellFormed, Ascii, Key;
  }

  /** The array of .args */
  method ReadArguments(data: Bytes, r: nat, ghost o: Obj) returns (args: seq<ArgInfo>, r': nat)
    requires WellFormed(o) && IsArray(o) && (forall a :: a in o.items ==> ArgumentOk(a)) && StartsAt(Encode(o), data, r)
    ensures args == ArgsOf(o.items, |o.items|) && r' == r + |Encode(o)|
  {
    hide ArgsOf, Behind, Placed, StartsAt, Encode, EncodeAll, ArgumentOk, WellFormed, AllWellFormed, ArgOf;
    var numArgs;
    numArgs, r' := ReadArray(data, r, o);
    ghost var start, items := r', o.items;
    args := [];
    BehindNone(items, start);
    NoArgs(items);
    for i := 0 to numArgs
      invariant Behind(items, start, i, r') && args == ArgsOf(items, i)
    {
      NextItem(data, items, start, i, r');
      assert items[i] in items;
      OneMoreArg(items, i);
      var info;
      info, r' := ReadArgument(data, r', items[i]);
      args := args + [info];
    }
    BehindAll(items, start, r');
  }

  lemma NoArgs(objs: seq<Obj>)
    requires forall a :: a in objs ==> ArgumentOk(a)
    ensures ArgsOf(objs, 0) == []
  {
  }

  lemma OneMoreArg(objs: seq<Obj>, i: nat)
    requires i < |objs| && forall a :: a in objs ==> ArgumentOk(a)
    ensures ArgumentOk(objs[i]) && ArgsOf(objs, i + 1) == ArgsOf(objs, i) + [ArgOf(objs[i])]
  {
    hide ArgumentOk, ArgOf;
  }

  /** What an entry of a kernel does to what is known of it. */
  function AfterKernelEntry(k: Kernel, key: Bytes, value: Obj): Kernel
    requires KernelEntryOk(key, value)
  {
    if key == Ascii(".args") then k.(args := k.args + ArgsOf(value.items, |value.items|))
    else if key == Ascii(".name") then k.(name := StrOf(value).value)
    else k
  }

  method ReadKernelEntry(data: Bytes, r: nat, k: Kernel, ghost key: Obj, ghost value: Obj) returns (k': Kernel, r': nat)
    requires WellFormed(key) && StrOf(key).Some? && KernelEntryOk(StrOf(key).value, value)
    requires StartsAt(Encode(key), data, r) && StartsAt(Encode(value), data, r + |Encode(key)|)
    ensures k' == AfterKernelEntry(k, StrOf(key).value, value) && r' == r + |Encode(key)| + |Encode(value)|
  {
    hide ArgsOf, StartsAt, Encode, WellFormed, ArgumentOk, Skip, Ascii;
    var kernKey;
    kernKey, r' := DecodeStr(data, r, key);
    k' := k;
    if kernKey == Ascii(".args") {
      var args;
      args, r' := ReadArguments(data, r', value);
      k' := k.(args := k.args + args);
    } else if kernKey == Ascii(".name") {
      var kernelName;
      kernelName, r' := DecodeStr(data, r', value);
      k' := k.(name := kernelName);
    } else {
      NextPassesObject(data, r', value);
      r' := MpNext(data, r');
    }
  }

  lemma KernelAfterNext(o: Obj, i: nat, name: Bytes)
    requires KernelOk(o) && i < |o.items| / 2
    ensures KernelEntryOk(Key(o.items, i), o.items[2 * i + 1])
    ensures KernelAfter(o, i + 1, name)
        == AfterKernelEntry(KernelAfter(o, i, name), Key(o.items, i), o.items[2 * i + 1])
  {
    hide WellFormed, Ascii, ArgsOf, ArgumentOk;
    assert 2 * (i + 1) - 1 == 2 * i + 1;
  }

  lemma NextKernelPair(data: Bytes, o: Obj, start: nat, i: nat, r: nat, name: Bytes)
    requires KernelOk(o) && i < |o.items| / 2 && Placed(data, start, o.items) && Behind(o.items, start, 2 * i, r)
    ensures var key, value := o.items[2 * i], o.items[2 * i + 1];
            && WellFormed(key) && StrOf(key).Some? && KernelEntryOk(StrOf(key).value, value)
            && StartsAt(Encode(key), data, r) && StartsAt(Encode(value), data, r + |Encode(key)|)
            && Behind(o.items, start, 2 * (i + 1), r + |Encode(key)| + |Encode(value)|)
            && KernelAfter(o, i + 1, name) == AfterKernelEntry(KernelAfter(o, i, name), StrOf(key).value, value)
  {
    hide Placed, Behind, StartsAt, Encode, EncodeAll, WellFormed, StrOf, Ascii, KernelEntryOk, KernelAfter,
         AfterKernelEntry;
    NextPair(data, o.items, start, i, r);
    EntryOf(o, i);
    KernelAfterNext(o, i, name);
  }

  lemma KernelStarts(o: Obj, name: Bytes)
    requires KernelOk(o)
    ensures WellFormed(o) && IsMap(o) && (o.FixMap? || o.Map?)
    ensures KernelAfter(o, 0, name) == Kernel(name, []) && KernelOf(o, name) == KernelAfter(o, |o.items| / 2, name)
  {
    hide WellFormed;
  }

  /** One kernel: its entries in any order. The name is kept from the kernel before. */
  method ReadKernel(data: Bytes, r: nat, name: Bytes, ghost o: Obj) returns (k: Kernel, r': nat)
    requires KernelOk(o) && StartsAt(Encode(o), data, r)
    ensures k == KernelOf(o, name) && r' == r + |Encode(o)|
  {
    hide *;
    KernelStarts(o, name);
    var kernMapSize;
    kernMapSize, r' := ReadMap(data, r, o);
    ghost var start, items := r', o.items;
    BehindNone(items, start);
    k := Kernel(name, []);
    for i := 0 to kernMapSize
      invariant Behind(items, start, 2 * i, r') && k == KernelAfter(o, i, name)
    {
      NextKernelPair(data, o, start, i, r', name);
      k, r' := ReadKernelEntry(data, r', k, items[2 * i], items[2 * i + 1]);
    }
    BehindAll(items, start, r');
  }

  lemma {:induction false} ApplyJoins(table: Table, a: seq<Write>, b: seq<Write>, hash: Hash)
    ensures Apply(table, a + b, hash) == Apply(Apply(table, a, hash), b, hash)
    decreases |b|
  {
    if b == [] {
      assert a + b == a;
    } else {
      var n := |b| - 1;
      assert (a + b)[..|a + b| - 1] == a + b[..n];
      ApplyJoins(table, a, b[..n], hash);
    }
  }

  lemma {:induction false} WritesJoin(a: seq<Kernel>, b: seq<Kernel>)
    ensures Writes(a + b) == Writes(a) + Writes(b)
    decreases |b|
  {
    hide KernelWrites;
    if b == [] {
      assert a + b == a;
    } else {
      var n := |b| - 1;
      assert (a + b)[..|a + b| - 1] == a + b[..n];
      WritesJoin(a, b[..n]);
    }
  }

  lemma ApplyOne(table: Table, w: Write, hash: Hash)
    ensures Apply(table, [w], hash) == table[hash(w.key) := w.value]
  {
    assert [w][..0] == [];
  }

  lemma OneMoreArgWrite(table: Table, k: Kernel, i: nat, hash: Hash)
    requires i < |k.args|
    ensures var w := ArgWrite(k, i);
            Apply(table, ArgWrites(k, i + 1), hash) == Apply(table, ArgWrites(k, i), hash)[hash(w.key) := w.value]
  {
    ApplyJoins(table, ArgWrites(k, i), [ArgWrite(k, i)], hash);
    ApplyOne(Apply(table, ArgWrites(k, i), hash), ArgWrite(k, i), hash);
  }

  lemma CountWrite(table: Table, k: Kernel, hash: Hash)
    ensures Apply(table, ArgWrites(k, 0), hash) == table
    ensures Apply(table, KernelWrites(k), hash)
        == Apply(table, ArgWrites(k, |k.args|), hash)[hash(k.name) := SizeOffset(|k.args|, 0)]
  {
    var w := Write(k.name, SizeOffset(|k.args|, 0));
    ApplyJoins(table, ArgWrites(k, |k.args|), [w], hash);
    ApplyOne(Apply(table, ArgWrites(k, |k.args|), hash), w, hash);
  }

  lemma KernelsOfOne(ks: seq<Kernel>, k: Kernel, table: Table, hash: Hash)
    ensures Apply(table, Writes(ks + [k]), hash) == Apply(Apply(table, Writes(ks), hash), KernelWrites(k), hash)
  {
    assert (ks + [k])[..|ks|] == ks;
    ApplyJoins(table, Writes(ks), KernelWrites(k), hash);
  }

  lemma NoKernels(table: Table, hash: Hash)
    ensures Apply(table, Writes([]), hash) == table
  {
  }

  lemma OneMoreKernel(objs: seq<Obj>, i: nat)
    requires i < |objs| && forall k :: k in objs ==> KernelOk(k)
    ensures KernelOk(objs[i]) && KernelsOf(objs, 0) == []
    ensures KernelsOf(objs, i + 1)
        == KernelsOf(objs, i) + [KernelOf(objs[i], if i == 0 then [] else KernelsOf(objs, i)[i - 1].name)]
  {
    hide KernelOk, KernelOf;
  }

  lemma DocumentStarts(o: Obj)
    requires DocumentOk(o)
    ensures WellFormed(o) && IsMap(o) && (o.FixMap? || o.Map?) && DocumentAfter(o, 0) == []
  {
    hide WellFormed, DocumentEntryOk;
  }

  function DocumentEntry(key: Bytes, value: Obj): seq<Kernel>
    requires DocumentEntryOk(key, value)
  {
    if key == Ascii("amdhsa.kernels") then KernelsOf(value.items, |value.items|) else []
  }

  lemma NextDocumentPair(data: Bytes, o: Obj, start: nat, i: nat, r: nat)
    requires DocumentOk(o) && i < |o.items| / 2 && Placed(data, start, o.items) && Behind(o.items, start, 2 * i, r)
    ensures var key, value := o.items[2 * i], o.items[2 * i + 1];
            && WellFormed(key) && StrOf(key).Some? && DocumentEntryOk(StrOf(key).value, value)
            && StartsAt(Encode(key), data, r) && StartsAt(Encode(value), data, r + |Encode(key)|)
            && Behind(o.items, start, 2 * (i + 1), r + |Encode(key)| + |Encode(value)|)
            && DocumentAfter(o, i + 1) == DocumentAfter(o, i) + DocumentEntry(StrOf(key).value, value)
  {
    hide Placed, Behind, StartsAt, Encode, EncodeAll, WellFormed, StrOf, Ascii, DocumentEntryOk, KernelsOf;
    NextPair(data, o.items, start, i, r);
    EntryOf(o, i);
    assert 2 * (i + 1) - 1 == 2 * i + 1;
  }

  class ArgumentSizes {
    var table: Table
    const hash: Hash

    constructor (hash: Hash)
      ensures this.hash == hash && table == map[]
    {
      this.hash, table := hash, map[];
    }

    /** The entries of one kernel. */
    method Store(k: Kernel)
      modifies this
      ensures table == Apply(old(table), KernelWrites(k), hash)
    {
      CountWrite(table, k, hash);
      hide Apply, KernelWrites, ArgWrites;
      for i := 0 to |k.args|
        invariant table == Apply(old(table), ArgWrites(k, i), hash)
      {
        OneMoreArgWrite(old(table), k, i, hash);
        var sizeOffset := SizeOffset(k.args[i].size, k.args[i].offset);
        if IsHidden(k.args[i].valueKind) {
          sizeOffset := sizeOffset.(size := 0);
        }
        var argKey := k.name + DecimalBytes(i);
        table := table[hash(argKey) := sizeOffset];
      }
      table := table[hash(k.name) := SizeOffset(|k.args|, 0)];
    }

    /** The array of "amdhsa.kernels" */
    method ReadKernels(data: Bytes, r: nat, ghost o: Obj) returns (r': nat)
      requires WellFormed(o) && IsArray(o) && (forall k :: k in o.items ==> KernelOk(k)) && StartsAt(Encode(o), data, r)
      modifies this
      ensures table == Apply(old(table), Writes(KernelsOf(o.items, |o.items|)), hash) && r' == r + |Encode(o)|
    {
      hide Apply, KernelWrites, Writes, Behind, Placed, StartsAt, Encode, EncodeAll, KernelOk, WellFormed,
           AllWellFormed, KernelOf;
      var numKernels;
      numKernels, r' := ReadArray(data, r, o);
      var kernelName: Bytes := [];
      ghost var start, items := r', o.items;
      BehindNone(items, start);
      NoKernels(table, hash);
      for i := 0 to numKernels
        invariant Behind(items, start, i, r') && table == Apply(old(table), Writes(KernelsOf(items, i)), hash)
        invariant kernelName == if i == 0 then [] else KernelsOf(items, i)[i - 1].name
      {
        NextItem(data, items, start, i, r');
        assert items[i] in items;
        OneMoreKernel(items, i);
        var k;
        k, r' := ReadKernel(data, r', kernelName, items[i]);
        KernelsOfOne(KernelsOf(items, i), k, old(table), hash);
        Store(k);
        kernelName := k.name;
      }
      BehindAll(items, start, r');
    }

    /** getArgInfo on the description of one note: the cursor ends just past the document, and the
        table has been written once for every kernel of the document. */
    method GetArgInfo(data: Bytes, r: nat, ghost o: Obj) returns (r': nat)
      requires DocumentOk(o) && StartsAt(Encode(o), data, r)
      modifies this
      ensures table == TableAfter(old(table), o, hash) && r' == r + |Encode(o)|
    {
      hide *;
      DocumentStarts(o);
      NoKernels(table, hash);
      var mapSize;
      mapSize, r' := ReadMap(data, r, o);
      ghost var start, items := r', o.items;
      BehindNone(items, start);
      for i := 0 to mapSize
        invariant Behind(items, start, 2 * i, r') && table == Apply(old(table), Writes(DocumentAfter(o, i)), hash)
      {
        NextDocumentPair(data, o, start, i, r');
        ghost var ks := DocumentEntry(StrOf(items[2 * i]).value, items[2 * i + 1]);
        WritesJoin(DocumentAfter(o, i), ks);
        ApplyJoins(old(table), Writes(DocumentAfter(o, i)), Writes(ks), hash);
        r' := ReadDocumentEntry(data, r', items[2 * i], items[2 * i + 1]);
      }
      BehindAll(items, start, r');
      TableAfterIs(old(table), o, hash);
    }

    method ReadDocumentEntry(data: Bytes, r: nat, ghost key: Obj, ghost value: Obj) returns (r': nat)
      requires WellFormed(key) && StrOf(key).Some? && DocumentEntryOk(StrOf(key).value, value)
      requires StartsAt(Encode(key), data, r) && StartsAt(Encode(value), data, r + |Encode(key)|)
      modifies this
      ensures table == Apply(old(table), Writes(DocumentEntry(StrOf(key).value, value)), hash)
      ensures r' == r + |Encode(key)| + |Encode(value)|
    {
      hide Apply, Writes, StartsAt, Encode, KernelOk, WellFormed, Ascii, Skip, KernelsOf;
      NoKernels(table, hash);
      var name;
      name, r' := DecodeStr(data, r, key);
      if name == Ascii("amdhsa.kernels") {
        r' := ReadKernels(data, r', value);
      } else {
        NextPassesObject(data, r', value);
        r' := MpNext(data, r');
      }
    }
  }
}

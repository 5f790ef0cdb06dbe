/** mp_vformat: MessagePack built from a format string. Brackets nest in the format, but the code
    walks it once from left to right and looks ahead at each opening bracket to count. */
module MsgPackFormat {
  import opened Basics
  import opened PowersOfTwo
  import opened MsgPackGrammar
  import opened MsgPackNumbers
  import R = MsgPackRead

  // ----- The format string

  /** What a directive takes from the arguments. */
  datatype Kind =
    | SignedInt(long: bool)      // d, i and their length variants, 32 or 64 bits
    | UnsignedInt(long: bool)    // u and its variants
    | Text                       // s and .*s
    | Packed                     // p and .*p
    | Float                      // f
    | Double                     // lf
    | Boolean                    // b

  datatype Token =
    | OpenArray | OpenMap | Close(square: bool) | NilWord
    | Directive(kind: Kind) | Percent | Unexpected | Other

  datatype Arg =
    | Number(value: int)
    | Characters(text: seq<byte>)
    | Message(obj: Obj)
    | Bits(bits: seq<byte>)
    | Flag(on: bool)

  const INT := 0x8000_0000
  const LONG := 0x8000_0000_0000_0000

  /** The character at i, with the terminating NUL and beyond as NUL. */
  function At(f: string, i: nat): char { if i < |f| then f[i] else '\0' }

  /** A format has no NUL inside. */
  predicate CString(f: string) { '\0' !in f }

  /** The directive behind a percent sign, in the order the code tries them, and its length. */
  function DirectiveAt(f: string, i: nat): (t: (Token, nat))
    ensures 1 <= t.1 <= 3
    ensures t.0 != Unexpected ==> i + t.1 <= |f|
    ensures t.0.Directive? || t.0.Percent? || t.0.Unexpected?
    ensures forall k :: i <= k < i + t.1 && t.0.Directive? ==> At(f, k) in "diusplfbh.*"
  {
    var a, b, c := At(f, i), At(f, i + 1), At(f, i + 2);
    if a == 'd' || a == 'i' then (Directive(SignedInt(false)), 1)
    else if a == 'u' then (Directive(UnsignedInt(false)), 1)
    else if a == 's' then (Directive(Text), 1)
    else if a == '.' && b == '*' && c == 's' then (Directive(Text), 3)
    else if a == 'p' then (Directive(Packed), 1)
    else if a == '.' && b == '*' && c == 'p' then (Directive(Packed), 3)
    else if a == 'f' then (Directive(Float), 1)
    else if a == 'l' && b == 'f' then (Directive(Double), 2)
    else if a == 'b' then (Directive(Boolean), 1)
    else if a == 'l' && (b == 'd' || b == 'i') then (Directive(SignedInt(true)), 2)
    else if a == 'l' && b == 'u' then (Directive(UnsignedInt(true)), 2)
    else if a == 'l' && b == 'l' && (c == 'd' || c == 'i') then (Directive(SignedInt(true)), 3)
    else if a == 'l' && b == 'l' && c == 'u' then (Directive(UnsignedInt(true)), 3)
    else if a == 'h' && (b == 'd' || b == 'i') then (Directive(SignedInt(false)), 2)
    else if a == 'h' && b == 'u' then (Directive(UnsignedInt(false)), 2)
    else if a == 'h' && b == 'h' && (c == 'd' || c == 'i') then (Directive(SignedInt(false)), 3)
    else if a == 'h' && b == 'h' && c == 'u' then (Directive(UnsignedInt(false)), 3)
    else if a == '%' then (Percent, 1)
    else (Unexpected, 1)
  }

  predicate NilAt(f: string, i: nat) { At(f, i) == 'N' && At(f, i + 1) == 'I' && At(f, i + 2) == 'L' }

  function TokenAt(f: string, i: nat): (t: (Token, nat))
    requires i < |f| && CString(f)
    ensures 1 <= t.1 <= 4
    ensures t.0 != Unexpected ==> i + t.1 <= |f|
  {
    if f[i] == '[' then (OpenArray, 1)
    else if f[i] == '{' then (OpenMap, 1)
    else if f[i] == ']' then (Close(true), 1)
    else if f[i] == '}' then (Close(false), 1)
    else if f[i] == '%' then var (t, n) := DirectiveAt(f, i + 1); (t, n + 1)
    else if NilAt(f, i) then (NilWord, 3)
    else (Other, 1)
  }

  predicate Matches(kind: Kind, arg: Arg) {
    match kind
    case SignedInt(long) => arg.Number? && if long then -LONG <= arg.value < LONG else -INT <= arg.value < INT
    case UnsignedInt(long) => arg.Number? && 0 <= arg.value < if long then 2 * LONG else 2 * INT
    case Text => arg.Characters? && |arg.text| < 0x1_0000_0000
    case Packed => arg.Message? && WellFormed(arg.obj)
    case Float => arg.Bits? && |arg.bits| == 4
    case Double => arg.Bits? && |arg.bits| == 8
    case Boolean => arg.Flag?
  }

  // ----- The objects it denotes

  function UintObj(n: nat): (o: Obj)
    requires n < TWO64
    ensures WellFormed(o) && Encode(o) == EncodeUint(n)
  {
    var s := EncodeUint(n);
    if n <= 0x7f then Single(n) else Obj.Number(s[0], s[1..])
  }

  function IntObj(n: int): (o: Obj)
    requires -LONG <= n < 0
    ensures WellFormed(o) && Encode(o) == EncodeInt(n)
  {
    var s := EncodeInt(n);
    if n >= -0x20 then Single(0x100 + n) else Obj.Number(s[0], s[1..])
  }

  function StrObj(d: seq<byte>): (o: Obj)
    requires |d| < 0x1_0000_0000
    ensures WellFormed(o)
  {
    if |d| <= 31 then FixStr(d)
    else if |d| <= 0xff then Str(W8, d)
    else if |d| <= 0xffff then Str(W16, d)
    else Str(W32, d)
  }

  function ArrayObj(items: seq<Obj>): (o: Obj)
    requires AllWellFormed(items) && |items| < 0x8000_0000
    ensures WellFormed(o) && o.Children() == items
  {
    if |items| <= 15 then FixArr(items) else if |items| <= 0xffff then Arr(W16, items) else Arr(W32, items)
  }

  function MapObj(items: seq<Obj>): (o: Obj)
    requires AllWellFormed(items) && |items| % 2 == 0 && |items| < 0x8000_0000
    ensures WellFormed(o) && o.Children() == items
  {
    if |items| / 2 <= 15 then FixMap(items) else if |items| / 2 <= 0xffff then Map(W16, items) else Map(W32, items)
  }

  function ArgObj(kind: Kind, arg: Arg): (o: Obj)
    requires Matches(kind, arg)
    ensures WellFormed(o)
  {
    match kind
    case SignedInt(_) => if arg.value < 0 then IntObj(arg.value) else UintObj(arg.value)
    case UnsignedInt(_) => UintObj(arg.value)
    case Text => StrObj(arg.text)
    case Packed => arg.obj
    case Float => Obj.Number(0xca, arg.bits)
    case Double => Obj.Number(0xcb, arg.bits)
    case Boolean => Single(if arg.on then 0xc3 else 0xc2)
  }

  datatype Tree = Leaf(o: Obj) | ArrayOf(items: seq<Tree>) | MapOf(items: seq<Tree>)

  datatype Parsed = Failed | Done(trees: seq<Tree>, next: nat, args: seq<Arg>)

  /** What stands at a position inside a level: its end, something to skip, a scalar or packed
      object with what it leaves of the arguments, an opening bracket, or a mistake. */
  datatype Step = End | Skip(next: nat) | Take(o: Obj, next: nat, args: seq<Arg>) | Nest(square: bool) | Mistake

  function StepAt(f: string, i: nat, level: Option<bool>, args: seq<Arg>): (s: Step)
    requires i < |f| && CString(f)
    ensures (s.Skip? || s.Take?) ==> i < s.next <= |f|
    ensures s.Take? ==> WellFormed(s.o)
  {
    var (token, n) := TokenAt(f, i);
    match token
    case Close(square) =>
      if level.None? then Skip(i + 1) else if level == Some(square) then End else Mistake
    case OpenArray => Nest(true)
    case OpenMap => Nest(false)
    case Directive(kind) =>
      if args == [] || !Matches(kind, args[0]) then Mistake else Take(ArgObj(kind, args[0]), i + n, args[1..])
    case NilWord => Take(Single(0xc0), i + n, args)
    case Percent => Skip(i + n)
    case Other => Skip(i + n)
    case Unexpected => Mistake
  }

  /** The trees from position i to the bracket that closes the level (to the end, at the top level,
      where closing brackets mean nothing). */
  function Parse(f: string, i: nat, level: Option<bool>, args: seq<Arg>): (p: Parsed)
    requires i <= |f| && CString(f)
    ensures p.Done? ==> i <= p.next <= |f| && |p.trees| <= p.next - i && (level.Some? ==> i < p.next)
    decreases |f| - i
  {
    if i == |f| then
      if level.None? then Done([], i, args) else Failed
    else
      match StepAt(f, i, level, args)
      case End => Done([], i + 1, args)
      case Skip(next) => Parse(f, next, level, args)
      case Take(o, next, args') => Prepend(Leaf(o), Parse(f, next, level, args'))
      case Nest(square) =>
        var inner := Parse(f, i + 1, Some(square), args);
        if inner.Failed? || (!square && |inner.trees| % 2 != 0) then Failed
        else
          Prepend(if square then ArrayOf(inner.trees) else MapOf(inner.trees),
                  Parse(f, inner.next, level, inner.args))
      case Mistake => Failed
  }

  function Prepend(t: Tree, p: Parsed): Parsed {
    if p.Failed? then Failed else Done([t] + p.trees, p.next, p.args)
  }

  /** Counts fit their fields, and maps have whole pairs. */
  predicate Sized(t: Tree) {
    match t
    case Leaf(o) => WellFormed(o)
    case ArrayOf(items) => |items| < INT && AllSized(items)
    case MapOf(items) => |items| < INT && |items| % 2 == 0 && AllSized(items)
  }

  predicate AllSized(ts: seq<Tree>) {
    ts == [] || (Sized(ts[0]) && AllSized(ts[1..]))
  }

  function TreeObj(t: Tree): (o: Obj)
    requires Sized(t)
    ensures WellFormed(o)
  {
    match t
    case Leaf(o) => o
    case ArrayOf(items) => ArrayObj(TreeObjs(items))
    case MapOf(items) => MapObj(TreeObjs(items))
  }

  function TreeObjs(ts: seq<Tree>): (objs: seq<Obj>)
    requires AllSized(ts)
    ensures AllWellFormed(objs) && |objs| == |ts|
  {
    if ts == [] then [] else [TreeObj(ts[0])] + TreeObjs(ts[1..])
  }

  // ----- What the code emits

  /** mp_encode_array and mp_encode_map, by their counts */
  function ArrayHead(n: nat): (s: seq<byte>)
    requires n < 0x1_0000_0000
    ensures |s| > 0
  {
    if n <= 15 then [0x90 + n] else if n <= 0xffff then [0xdc] + BigEndian(n, W16) else [0xdd] + BigEndian(n, W32)
  }

  function MapHead(n: nat): (s: seq<byte>)
    requires n < 0x1_0000_0000
    ensures |s| > 0
  {
    if n <= 15 then [0x80 + n] else if n <= 0xffff then [0xde] + BigEndian(n, W16) else [0xdf] + BigEndian(n, W32)
  }

  /** The items written at once: a header, or a whole scalar or packed object. */
  function Chunks(t: Tree): seq<seq<byte>>
    requires Sized(t)
  {
    match t
    case Leaf(o) => [Encode(o)]
    case ArrayOf(items) => [ArrayHead(|items|)] + AllChunks(items)
    case MapOf(items) => [MapHead(|items| / 2)] + AllChunks(items)
  }

  function AllChunks(ts: seq<Tree>): seq<seq<byte>>
    requires AllSized(ts)
  {
    if ts == [] then [] else Chunks(ts[0]) + AllChunks(ts[1..])
  }

  function Concat(chunks: seq<seq<byte>>): seq<byte> {
    if chunks == [] then [] else chunks[0] + Concat(chunks[1..])
  }

  lemma {:induction false} ConcatOfSum(a: seq<seq<byte>>, b: seq<seq<byte>>)
    ensures Concat(a + b) == Concat(a) + Concat(b)
  {
    if a == [] {
      assert a + b == b;
    } else {
      assert (a + b)[1..] == a[1..] + b;
      ConcatOfSum(a[1..], b);
    }
  }

  lemma ArrayHeadOf(items: seq<Obj>)
    requires AllWellFormed(items) && |items| < INT
    ensures WellFormedHead(ArrayObj(items)) && HeadBytes(ArrayObj(items)) == ArrayHead(|items|)
  {
    hide BigEndian, WellFormed;
  }

  lemma MapHeadOf(items: seq<Obj>)
    requires AllWellFormed(items) && |items| < INT && |items| % 2 == 0
    ensures WellFormedHead(MapObj(items)) && HeadBytes(MapObj(items)) == MapHead(|items| / 2)
  {
    hide BigEndian, WellFormed;
  }

  lemma HeadsAreHeaders(items: seq<Obj>)
    requires AllWellFormed(items) && |items| < INT
    ensures Encode(ArrayObj(items)) == ArrayHead(|items|) + EncodeAll(items)
    ensures |items| % 2 == 0 ==> Encode(MapObj(items)) == MapHead(|items| / 2) + EncodeAll(items)
  {
    hide BigEndian, Encode, EncodeAll, WellFormed;
    EncodeUnfolds(ArrayObj(items));
    ArrayHeadOf(items);
    if |items| % 2 == 0 {
      EncodeUnfolds(MapObj(items));
      MapHeadOf(items);
    }
    hide ArrayObj, MapObj, ArrayHead, MapHead, HeadBytes, WellFormedHead, AllWellFormed;
  }

  /** The items, one after the other, are the encoding of the tree. */
  lemma {:induction false} ChunksAreEncoding(t: Tree)
    requires Sized(t)
    ensures Concat(Chunks(t)) == Encode(TreeObj(t))
    decreases t, 0
  {
    match t
    case Leaf(o) => assert Concat([Encode(o)]) == Encode(o) + Concat([]);
    case ArrayOf(items) =>
      AllChunksAreEncoding(items);
      HeadsAreHeaders(TreeObjs(items));
      assert Chunks(t)[1..] == AllChunks(items);
    case MapOf(items) =>
      AllChunksAreEncoding(items);
      HeadsAreHeaders(TreeObjs(items));
      assert Chunks(t)[1..] == AllChunks(items);
  }

  lemma {:induction false} AllChunksAreEncoding(ts: seq<Tree>)
    requires AllSized(ts)
    ensures Concat(AllChunks(ts)) == EncodeAll(TreeObjs(ts))
    decreases ts, 1
  {
    if ts != [] {
      ChunksAreEncoding(ts[0]);
      AllChunksAreEncoding(ts[1..]);
      ConcatOfSum(Chunks(ts[0]), AllChunks(ts[1..]));
      var objs := TreeObjs(ts);
      assert objs[0] == TreeObj(ts[0]) && objs[1..] == TreeObjs(ts[1..]);
    }
  }

  /** The look-ahead: how many items stand directly inside an open bracket, from position e on,
      `depth` brackets deep; None where an assertion fails. */
  function Scan(f: string, e: nat, depth: nat, size: nat, square: bool): Option<nat>
    requires e <= |f|
    decreases |f| - e
  {
    if depth == 0 then Some(size)
    else if e == |f| then None
    else if f[e] == '[' || f[e] == '{' then Scan(f, e + 1, depth + 1, if depth == 1 then size + 1 else size, square)
    else if f[e] == ']' || f[e] == '}' then
      if depth == 1 && (f[e] == ']') != square then None else Scan(f, e + 1, depth - 1, size, square)
    else if f[e] == '%' then
      if At(f, e + 1) == '%' then Scan(f, e + 2, depth, size, square)
      else Scan(f, e + 1, depth, if depth == 1 then size + 1 else size, square)
    else if NilAt(f, e) && depth == 1 then Scan(f, e + 1, depth, size + 1, square)
    else Scan(f, e + 1, depth, size, square)
  }

  lemma {:induction false} ScanIsBounded(f: string, e: nat, depth: nat, size: nat, square: bool)
    requires e <= |f|
    ensures var count := Scan(f, e, depth, size, square); count.Some? ==> count.value <= size + (|f| - e)
    decreases |f| - e
  {
    if depth > 0 && e < |f| {
      if f[e] == '[' || f[e] == '{' {
        ScanIsBounded(f, e + 1, depth + 1, if depth == 1 then size + 1 else size, square);
      }
      else if f[e] == ']' || f[e] == '}' { ScanIsBounded(f, e + 1, depth - 1, size, square); }
      else if f[e] == '%' && At(f, e + 1) == '%' { ScanIsBounded(f, e + 2, depth, size, square); }
      else {
        ScanIsBounded(f, e + 1, depth, size + 1, square);
        ScanIsBounded(f, e + 1, depth, size, square);
      }
    }
  }

  /** The letters of a directive mean nothing to the look-ahead. */
  lemma {:induction false} ScanSkips(f: string, e: nat, n: nat, depth: nat, size: nat, square: bool)
    requires e + n <= |f| && depth > 0 && forall k :: e <= k < e + n ==> f[k] !in "[]{}%N"
    ensures Scan(f, e, depth, size, square) == Scan(f, e + n, depth, size, square)
    decreases n
  {
    if n > 0 {
      assert f[e] !in "[]{}%N";
      ScanSkips(f, e + 1, n - 1, depth, size, square);
    }
  }

  /** Only what stands directly inside the bracket counts. */
  function Counted(depth: nat, size: nat, more: nat): nat { if depth == 1 then size + more else size }

  lemma CountedAdds(depth: nat, size: nat, more: nat)
    ensures Counted(depth, Counted(depth, size, 1), more) == Counted(depth, size, 1 + more)
    ensures Counted(depth, size, 0) == size && (depth > 0 ==> Counted(depth + 1, size, more) == size)
  {
  }

  /** One step, seen by the look-ahead. */
  lemma ScanStep(f: string, i: nat, inner: bool, args: seq<Arg>, depth: nat, size: nat, square: bool)
    requires i < |f| && CString(f) && depth > 0 && (depth == 1 ==> inner == square)
    ensures match StepAt(f, i, Some(inner), args)
            case End => Scan(f, i, depth, size, square) == Scan(f, i + 1, depth - 1, size, square)
            case Skip(next) => Scan(f, i, depth, size, square) == Scan(f, next, depth, size, square)
            case Take(_, next, _) =>
              Scan(f, i, depth, size, square) == Scan(f, next, depth, Counted(depth, size, 1), square)
            case Nest(_) =>
              Scan(f, i, depth, size, square) == Scan(f, i + 1, depth + 1, Counted(depth, size, 1), square)
            case Mistake => true
  {
    hide Matches, ArgObj;
    if TokenAt(f, i).0.Directive? {
      ScanDirective(f, i, depth, size, square);
      hide Scan, At, NilAt, DirectiveAt, TokenAt, Counted;
    } else if TokenAt(f, i).0.NilWord? {
      ScanSkips(f, i + 1, 2, depth, Counted(depth, size, 1), square);
      hide DirectiveAt;
    } else {
      hide DirectiveAt;
    }
  }

  lemma ScanDirective(f: string, i: nat, depth: nat, size: nat, square: bool)
    requires i < |f| && CString(f) && depth > 0 && TokenAt(f, i).0.Directive?
    ensures Scan(f, i, depth, size, square) == Scan(f, i + TokenAt(f, i).1, depth, Counted(depth, size, 1), square)
  {
    var n := TokenAt(f, i).1;
    assert f[i] == '%' && At(f, i + 1) in "diusplfbh.*";
    forall k | i + 1 <= k < i + n ensures f[k] !in "[]{}%N" { assert At(f, k) in "diusplfbh.*"; }
    hide DirectiveAt, TokenAt;
    ScanSkips(f, i + 1, n - 1, depth, Counted(depth, size, 1), square);
  }

  /** The look-ahead counts the trees of its own level, whatever is nested in them. */
  lemma {:induction false} ScanCounts(f: string, i: nat, inner: bool, args: seq<Arg>, depth: nat, size: nat,
                                      square: bool)
    requires i <= |f| && CString(f) && Parse(f, i, Some(inner), args).Done?
    requires depth > 0 && (depth == 1 ==> inner == square)
    ensures var p := Parse(f, i, Some(inner), args);
            Scan(f, i, depth, size, square) == Scan(f, p.next, depth - 1, Counted(depth, size, |p.trees|), square)
    decreases |f| - i
  {
    hide Scan, StepAt, CString, Counted;
    ScanStep(f, i, inner, args, depth, size, square);
    var more := Counted(depth, size, 1);
    match StepAt(f, i, Some(inner), args)
    case End => CountedAdds(depth, size, 0);
    case Skip(next) => ScanCounts(f, next, inner, args, depth, size, square);
    case Take(_, next, args') =>
      ScanCounts(f, next, inner, args', depth, more, square);
      CountedAdds(depth, size, |Parse(f, next, Some(inner), args').trees|);
    case Nest(bracket) =>
      var p := Parse(f, i + 1, Some(bracket), args);
      ScanCounts(f, i + 1, bracket, args, depth + 1, more, square);
      CountedAdds(depth, more, |p.trees|);
      ScanCounts(f, p.next, inner, p.args, depth, more, square);
      CountedAdds(depth, size, |Parse(f, p.next, Some(inner), p.args).trees|);
  }

  /** What the single walk emits from position i on; None where an assertion fails. */
  function Emit(f: string, i: nat, args: seq<Arg>): Option<seq<seq<byte>>>
    requires i <= |f| < INT && CString(f)
    decreases |f| - i
  {
    if i == |f| then Some([])
    else
      match StepAt(f, i, None, args)
      case Skip(next) => Emit(f, next, args)
      case Take(o, next, args') => Item(Encode(o), Emit(f, next, args'))
      case Nest(square) =>
        var count := Scan(f, i + 1, 1, 0, square);
        ScanIsBounded(f, i + 1, 1, 0, square);
        if count.None? || (!square && count.value % 2 != 0) then None
        else Item(Head(square, count.value), Emit(f, i + 1, args))
      case _ => None
  }

  /** An array's header by the number of items, a map's by the number of pairs. */
  function Head(square: bool, n: nat): (s: seq<byte>)
    requires n < INT
    ensures |s| > 0
  {
    if square then ArrayHead(n) else MapHead(n / 2)
  }

  function Item(chunk: seq<byte>, rest: Option<seq<seq<byte>>>): Option<seq<seq<byte>>> {
    if rest.None? then None else Some([chunk] + rest.value)
  }

  /** The walk does not know the level: it sees the same, but for the end of a level. */
  lemma LevelsLookAlike(f: string, i: nat, level: Option<bool>, args: seq<Arg>)
    requires i < |f| && CString(f)
    ensures var s, t := StepAt(f, i, level, args), StepAt(f, i, None, args);
            t != End && (s == t || (s == End && t == Skip(i + 1)) || s == Mistake)
  {
    hide TokenAt, CString, Matches;
  }

  lemma NoChunks()
    ensures AllSized([]) && AllChunks([]) == []
  {
  }

  lemma LeafFirst(o: Obj, trees: seq<Tree>)
    requires WellFormed(o) && AllSized(trees)
    ensures AllSized([Leaf(o)] + trees) && AllChunks([Leaf(o)] + trees) == [Encode(o)] + AllChunks(trees)
  {
    hide WellFormed, Encode;
    var all := [Leaf(o)] + trees;
    assert all[0] == Leaf(o) && all[1..] == trees;
  }

  lemma NestedFirst(square: bool, items: seq<Tree>, trees: seq<Tree>)
    requires AllSized(items) && AllSized(trees) && |items| < INT && (!square ==> |items| % 2 == 0)
    ensures var t := if square then ArrayOf(items) else MapOf(items);
            AllSized([t] + trees)
                && AllChunks([t] + trees) == [Head(square, |items|)] + (AllChunks(items) + AllChunks(trees))
  {
    hide ArrayHead, MapHead;
    var t := if square then ArrayOf(items) else MapOf(items);
    var all := [t] + trees;
    assert all[0] == t && all[1..] == trees;
    assert Sized(t) && Chunks(t) == [Head(square, |items|)] + AllChunks(items);
  }

  lemma OneInFront<T>(a: T, b: seq<T>, c: seq<T>)
    ensures [a] + (b + c) == ([a] + b) + c
  {
  }

  lemma Regroup<T>(a: T, b: seq<T>, c: seq<T>, d: seq<T>)
    ensures [a] + (b + (c + d)) == ([a] + (b + c)) + d
  {
  }

  /** The walk through a level emits the trees of that level. */
  lemma {:induction false} EmitsTheTrees(f: string, i: nat, level: Option<bool>, args: seq<Arg>)
    requires i <= |f| < INT && CString(f) && Parse(f, i, level, args).Done?
    requires var p := Parse(f, i, level, args); Emit(f, p.next, p.args).Some?
    ensures var p := Parse(f, i, level, args);
            AllSized(p.trees) && Emit(f, i, args) == Some(AllChunks(p.trees) + Emit(f, p.next, p.args).value)
    decreases |f| - i
  {
    NoChunks();
    hide Scan, StepAt, CString, Encode, WellFormed, Head, Counted, AllChunks, AllSized;
    var p := Parse(f, i, level, args);
    if i < |f| {
      LevelsLookAlike(f, i, level, args);
      match StepAt(f, i, level, args)
      case End => assert AllChunks(p.trees) + Emit(f, p.next, p.args).value == Emit(f, p.next, p.args).value;
      case Skip(next) => EmitsTheTrees(f, next, level, args);
      case Take(o, next, args') =>
        EmitsTheTrees(f, next, level, args');
        var rest := Parse(f, next, level, args').trees;
        LeafFirst(o, rest);
        OneInFront(Encode(o), AllChunks(rest), Emit(f, p.next, p.args).value);
      case Nest(square) =>
        var inner := Parse(f, i + 1, Some(square), args);
        var outer := Parse(f, inner.next, level, inner.args);
        ScanCounts(f, i + 1, square, args, 1, 0, square);
        ScanEnds(f, inner.next, |inner.trees|, square);
        EmitsTheTrees(f, inner.next, level, inner.args);
        EmitsTheTrees(f, i + 1, Some(square), args);
        NestedFirst(square, inner.trees, outer.trees);
        Regroup(Head(square, |inner.trees|), AllChunks(inner.trees), AllChunks(outer.trees),
                Emit(f, p.next, p.args).value);
    } else {
      assert AllChunks(p.trees) + Emit(f, p.next, p.args).value == Emit(f, p.next, p.args).value;
    }
  }

  lemma ScanEnds(f: string, e: nat, n: nat, square: bool)
    requires e <= |f|
    ensures Scan(f, e, 0, Counted(1, 0, n), square) == Some(n)
  {
  }

  /** A walk that succeeds succeeds behind every level it passes. */
  lemma {:induction false} WalkGoesOn(f: string, i: nat, level: Option<bool>, args: seq<Arg>)
    requires i <= |f| < INT && CString(f) && Parse(f, i, level, args).Done? && Emit(f, i, args).Some?
    ensures var p := Parse(f, i, level, args); Emit(f, p.next, p.args).Some?
    decreases |f| - i
  {
    hide Scan, StepAt, CString, Encode, WellFormed, Head;
    if i < |f| {
      LevelsLookAlike(f, i, level, args);
      match StepAt(f, i, level, args)
      case End =>
      case Skip(next) => WalkGoesOn(f, next, level, args);
      case Take(_, next, args') => WalkGoesOn(f, next, level, args');
      case Nest(square) =>
        var inner := Parse(f, i + 1, Some(square), args);
        WalkGoesOn(f, i + 1, Some(square), args);
        WalkGoesOn(f, inner.next, level, inner.args);
    }
  }

  /** One step of a walk that succeeds, at a level whose look-ahead succeeds. */
  lemma WalkStep(f: string, i: nat, level: Option<bool>, args: seq<Arg>)
    requires i < |f| < INT && CString(f) && Emit(f, i, args).Some?
    requires level.Some? ==> Scan(f, i, 1, 0, level.value).Some?
    ensures match StepAt(f, i, level, args)
            case Mistake => false
            case End => level.Some?
            case Skip(next) => Emit(f, next, args).Some?
            case Take(_, next, args') => Emit(f, next, args').Some?
            case Nest(square) =>
              var count := Scan(f, i + 1, 1, 0, square);
              Emit(f, i + 1, args).Some? && count.Some? && (!square ==> count.value % 2 == 0)
  {
    CloserAtLevel(f, i, level, args);
    hide Scan, StepAt, CString, Encode, WellFormed, Head;
  }

  lemma CloserAtLevel(f: string, i: nat, level: Option<bool>, args: seq<Arg>)
    requires i < |f| < INT && CString(f) && (level.Some? ==> Scan(f, i, 1, 0, level.value).Some?)
    ensures var s, t := StepAt(f, i, level, args), StepAt(f, i, None, args);
            t != End && (s == t || (s == End && level.Some? && t == Skip(i + 1)))
  {
    hide Matches, At, NilAt, DirectiveAt, ArgObj;
  }

  lemma {:induction false} ScanIgnoresSize(f: string, e: nat, depth: nat, a: nat, b: nat, square: bool)
    requires e <= |f|
    ensures Scan(f, e, depth, a, square).Some? <==> Scan(f, e, depth, b, square).Some?
    decreases |f| - e
  {
    if depth > 0 && e < |f| {
      if f[e] == '[' || f[e] == '{' {
        ScanIgnoresSize(f, e + 1, depth + 1, if depth == 1 then a + 1 else a, if depth == 1 then b + 1 else b, square);
      } else if f[e] == ']' || f[e] == '}' {
        ScanIgnoresSize(f, e + 1, depth - 1, a, b, square);
      } else if f[e] == '%' && At(f, e + 1) == '%' {
        ScanIgnoresSize(f, e + 2, depth, a, b, square);
      } else {
        ScanIgnoresSize(f, e + 1, depth, a + 1, b + 1, square);
        ScanIgnoresSize(f, e + 1, depth, a, b, square);
      }
    }
  }

  lemma CountedDirectly(n: nat)
    ensures Counted(1, 0, n) == n && Counted(2, 1, n) == 1
  {
  }

  /** The level's look-ahead succeeds behind a step of the level, and behind what is nested in it. */
  lemma BehindStep(f: string, i: nat, level: Option<bool>, args: seq<Arg>)
    requires i < |f| && CString(f) && (level.Some? ==> Scan(f, i, 1, 0, level.value).Some?)
    ensures level.Some? ==>
            match StepAt(f, i, level, args)
            case Skip(next) => Scan(f, next, 1, 0, level.value).Some?
            case Take(_, next, _) => Scan(f, next, 1, 0, level.value).Some?
            case Nest(_) => Scan(f, i + 1, 2, 1, level.value).Some?
            case _ => true
  {
    if level.Some? {
      ScanStep(f, i, level.value, args, 1, 0, level.value);
      CountedDirectly(1);
      hide Scan, StepAt, CString, Counted;
      var s := StepAt(f, i, level, args);
      if s.Take? { ScanIgnoresSize(f, s.next, 1, 0, 1, level.value); }
    }
  }

  lemma BehindNested(f: string, i: nat, square: bool, level: Option<bool>, args: seq<Arg>)
    requires i < |f| < INT && CString(f) && Emit(f, i + 1, args).Some?
    requires var count := Scan(f, i + 1, 1, 0, square); count.Some? && (!square ==> count.value % 2 == 0)
    requires level.Some? ==> Scan(f, i + 1, 2, 1, level.value).Some?
    requires Parse(f, i + 1, Some(square), args).Done?
    ensures var inner := Parse(f, i + 1, Some(square), args);
            && (!square ==> |inner.trees| % 2 == 0) && Emit(f, inner.next, inner.args).Some?
            && (level.Some? ==> Scan(f, inner.next, 1, 0, level.value).Some?)
  {
    hide *;
    var inner := Parse(f, i + 1, Some(square), args);
    CountedDirectly(|inner.trees|);
    ScanCounts(f, i + 1, square, args, 1, 0, square);
    ScanEnds(f, inner.next, |inner.trees|, square);
    WalkGoesOn(f, i + 1, Some(square), args);
    if level.Some? {
      ScanCounts(f, i + 1, square, args, 2, 1, level.value);
      ScanIgnoresSize(f, inner.next, 1, 0, 1, level.value);
    }
  }

  lemma {:induction false} WalkedIsBalanced(f: string, i: nat, level: Option<bool>, args: seq<Arg>)
    requires i <= |f| < INT && CString(f) && Emit(f, i, args).Some?
    requires level.Some? ==> Scan(f, i, 1, 0, level.value).Some?
    ensures Parse(f, i, level, args).Done?
    decreases |f| - i
  {
    hide *;
    if i < |f| {
      WalkStep(f, i, level, args);
      BehindStep(f, i, level, args);
      ParseProceeds(f, i, level, args);
      match StepAt(f, i, level, args)
      case End =>
      case Skip(next) => WalkedIsBalanced(f, next, level, args);
      case Take(_, next, args') => WalkedIsBalanced(f, next, level, args');
      case Nest(square) =>
        WalkedIsBalanced(f, i + 1, Some(square), args);
        BehindNested(f, i, square, level, args);
        var inner := Parse(f, i + 1, Some(square), args);
        WalkedIsBalanced(f, inner.next, level, inner.args);
    } else {
      AtTheEnd(f, level, args);
    }
  }

  lemma AtTheEnd(f: string, level: Option<bool>, args: seq<Arg>)
    requires CString(f) && (level.Some? ==> Scan(f, |f|, 1, 0, level.value).Some?)
    ensures Parse(f, |f|, level, args).Done?
  {
  }

  lemma ParseProceeds(f: string, i: nat, level: Option<bool>, args: seq<Arg>)
    requires i < |f| && CString(f)
    ensures match StepAt(f, i, level, args)
            case End => Parse(f, i, level, args).Done?
            case Skip(next) => Parse(f, next, level, args).Done? ==> Parse(f, i, level, args).Done?
            case Take(_, next, args') => Parse(f, next, level, args').Done? ==> Parse(f, i, level, args).Done?
            case Nest(square) =>
              var inner := Parse(f, i + 1, Some(square), args);
              inner.Done? && (!square ==> |inner.trees| % 2 == 0) && Parse(f, inner.next, level, inner.args).Done? ==>
                Parse(f, i, level, args).Done?
            case Mistake => true
  {
    hide StepAt, CString;
  }

  /** The walk meets no failing assertion exactly for formats that match their arguments and are
      balanced, apart from closing brackets outside all levels. */
  lemma AssertionsHoldExactlyWhenBalanced(f: string, args: seq<Arg>)
    requires |f| < INT && CString(f)
    ensures Emit(f, 0, args).Some? <==> Parse(f, 0, None, args).Done?
  {
    if Emit(f, 0, args).Some? {
      WalkedIsBalanced(f, 0, None, args);
    } else if Parse(f, 0, None, args).Done? {
      ParseEnds(f, 0, args);
      EmitsTheTrees(f, 0, None, args);
    }
  }

  // ----- What is written

  function Total(chunks: seq<seq<byte>>): nat { |Concat(chunks)| }

  /** An item is written if, with everything before it, it fits. */
  function Written(chunks: seq<seq<byte>>, size: nat): seq<byte> {
    if chunks == [] then []
    else
      var last := |chunks| - 1;
      Written(chunks[..last], size) + if Total(chunks) <= size then chunks[last] else []
  }

  lemma TotalGrows(chunks: seq<seq<byte>>, n: nat)
    requires n <= |chunks|
    ensures Total(chunks) == Total(chunks[..n]) + Total(chunks[n..])
  {
    assert chunks == chunks[..n] + chunks[n..];
    ConcatOfSum(chunks[..n], chunks[n..]);
  }

  /** What is written is the longest run of whole items from the start that fits. */
  lemma {:induction false} WrittenIsLongestPrefix(chunks: seq<seq<byte>>, size: nat) returns (n: nat)
    requires forall c :: c in chunks ==> |c| > 0
    ensures n <= |chunks| && Written(chunks, size) == Concat(chunks[..n]) && Total(chunks[..n]) <= size
    ensures n < |chunks| ==> Total(chunks[..n + 1]) > size
    ensures Total(chunks) <= size <==> n == |chunks|
  {
    if chunks == [] {
      n := 0;
    } else {
      var last := |chunks| - 1;
      var init := chunks[..last];
      n := WrittenIsLongestPrefix(init, size);
      assert init[..n] == chunks[..n];
      TotalGrows(chunks, last);
      assert chunks[last..] == [chunks[last]];
      assert Concat([chunks[last]]) == chunks[last] + Concat([]);
      if n < last {
        assert init[..n + 1] == chunks[..n + 1];
        TotalGrows(chunks, n + 1);
      } else if Total(chunks) <= size {
        assert chunks == init + [chunks[last]];
        ConcatOfSum(init, [chunks[last]]);
        assert init[..n] == init && chunks[..last + 1] == chunks;
        n := last + 1;
      } else {
        assert chunks[..n + 1] == chunks;
      }
    }
  }

  lemma WrittenStep(done: seq<seq<byte>>, chunk: seq<byte>, size: nat)
    ensures Total(done + [chunk]) == Total(done) + |chunk|
    ensures Written(done + [chunk], size) == Written(done, size) + if Total(done) + |chunk| <= size then chunk else []
  {
    var all := done + [chunk];
    assert all[..|all| - 1] == done;
    ConcatOfSum(done, [chunk]);
    assert Concat([chunk]) == chunk + Concat([]);
  }

  lemma {:induction false} ItemsAreNotEmpty(ts: seq<Tree>)
    requires AllSized(ts)
    ensures forall c :: c in AllChunks(ts) ==> |c| > 0
  {
    hide Encode, ArrayHead, MapHead, WellFormed;
    if ts != [] {
      if !ts[0].Leaf? { ItemsAreNotEmpty(ts[0].items); }
      ItemsAreNotEmpty(ts[1..]);
    }
  }

  /** Until something does not fit, everything is written. */
  lemma {:induction false} FittingIsWritten(chunks: seq<seq<byte>>, size: nat)
    ensures |Written(chunks, size)| <= Total(chunks)
    ensures Total(chunks) <= size ==> Written(chunks, size) == Concat(chunks)
    ensures |Written(chunks, size)| <= size
    decreases |chunks|
  {
    if chunks != [] {
      var last := |chunks| - 1;
      FittingIsWritten(chunks[..last], size);
      TotalGrows(chunks, last);
      assert chunks == chunks[..last] + [chunks[last]];
      WrittenStep(chunks[..last], chunks[last], size);
      ConcatOfSum(chunks[..last], [chunks[last]]);
      assert Concat([chunks[last]]) == chunks[last] + Concat([]);
    }
  }

  // ----- The code

  /** The look-ahead from an opening bracket. */
  method CountItems(f: string, open: nat, square: bool) returns (size: nat)
    requires open < |f| && CString(f) && Scan(f, open + 1, 1, 0, square).Some?
    ensures Scan(f, open + 1, 1, 0, square) == Some(size)
  {
    size := 0;
    var level := 1;
    var e := open + 1;
    while level > 0 && e < |f|
      invariant e <= |f| && level >= 0
      invariant Scan(f, e, level, size, square) == Scan(f, open + 1, 1, 0, square)
      decreases |f| - e
    {
      if f[e] == '[' || f[e] == '{' {
        if level == 1 {
          size := size + 1;
        }
        level := level + 1;
      } else if f[e] == ']' || f[e] == '}' {
        level := level - 1;
        assert level > 0 || (f[e] == ']') == square;
      } else if f[e] == '%' {
        if At(f, e + 1) == '%' {
          e := e + 1;
        } else if level == 1 {
          size := size + 1;
        }
      } else if f[e] == 'N' && At(f, e + 1) == 'I' && At(f, e + 2) == 'L' && level == 1 {
        size := size + 1;
      }
      e := e + 1;
    }
    assert level == 0;
  }

  method Store(data: array<byte>, pos: nat, chunk: seq<byte>)
    requires pos + |chunk| <= data.Length
    modifies data
    ensures data[..] == old(data[..])[..pos] + chunk + old(data[..])[pos + |chunk|..]
  {
    for k := 0 to |chunk|
      invariant data[..pos + k] == old(data[..])[..pos] + chunk[..k] && data[pos + k..] == old(data[..])[pos + k..]
    {
      data[pos + k] := chunk[k];
    }
    assert data[..] == data[..pos + |chunk|] + data[pos + |chunk|..];
  }

  class Output {
    var data: array<byte>
    var pos: nat
    var result: nat

    constructor (data: array<byte>)
      ensures this.data == data && pos == 0 && result == 0
    {
      this.data, pos, result := data, 0, 0;
    }

    ghost predicate Holds(before: seq<byte>, done: seq<seq<byte>>, size: nat)
      reads this, data
    {
      && size <= |before| == data.Length && result == Total(done)
      && pos == |Written(done, size)| <= size && data[..pos] == Written(done, size) && data[pos..] == before[pos..]
    }

    /** result += its size; if (result <= data_size) it is stored and data moves on. */
    method Put(chunk: seq<byte>, dataSize: nat, ghost before: seq<byte>, ghost done: seq<seq<byte>>)
      requires Holds(before, done, dataSize)
      modifies this`pos, this`result, data
      ensures Holds(before, done + [chunk], dataSize)
    {
      WrittenStep(done, chunk, dataSize);
      FittingIsWritten(done, dataSize);
      FittingIsWritten(done + [chunk], dataSize);
      hide Written, Total;
      result := result + |chunk|;
      if result <= dataSize {
        Store(data, pos, chunk);
        pos := pos + |chunk|;
      }
    }
  }

  /** mp_encode_str */
  function EncodeStr(d: seq<byte>): (s: seq<byte>)
    requires |d| < 0x1_0000_0000
    ensures s == Encode(StrObj(d))
  {
    (if |d| <= 31 then [0xa0 + |d|]
     else if |d| <= 0xff then [0xd9] + BigEndian(|d|, W8)
     else if |d| <= 0xffff then [0xda] + BigEndian(|d|, W16)
     else [0xdb] + BigEndian(|d|, W32)) + d
  }

  /** The bytes of a directive's argument. */
  method EncodeArg(kind: Kind, arg: Arg) returns (s: seq<byte>)
    requires Matches(kind, arg)
    ensures s == Encode(ArgObj(kind, arg))
    ensures Readable(arg) ==> R.Read(s) == Some((ArgValue(kind, arg), []))
  {
    ghost var o := ArgObj(kind, arg);
    if Readable(arg) {
      ArgReads(kind, arg, []);
      assert Encode(o) + [] == Encode(o);
    }
    hide R.Read, ArgValue, Readable;
    match kind
    case SignedInt(_) =>
      if arg.value < 0 {
        s := EncodeInt(arg.value);
      } else {
        s := EncodeUint(arg.value);
      }
    case UnsignedInt(_) => s := EncodeUint(arg.value);
    case Text => s := EncodeStr(arg.text);
    case Packed => s := Encode(arg.obj);
    case Float => s := [0xca] + arg.bits;
    case Double => s := [0xcb] + arg.bits;
    case Boolean => s := [if arg.on then 0xc3 else 0xc2];
  }

  /** An open bracket where the walk succeeds: its look-ahead succeeds, and its header comes next. */
  lemma EmitsHeader(f: string, i: nat, args: seq<Arg>, square: bool)
    requires i < |f| < INT && CString(f) && Emit(f, i, args).Some?
    requires TokenAt(f, i) == (if square then OpenArray else OpenMap, 1)
    ensures var count := Scan(f, i + 1, 1, 0, square);
            && count.Some? && count.value < |f| && (!square ==> count.value % 2 == 0)
            && Emit(f, i, args) == Item(Head(square, count.value), Emit(f, i + 1, args))
  {
    ScanIsBounded(f, i + 1, 1, 0, square);
    hide TokenAt, Scan, Head, Encode, CString;
  }

  /** Any other token where the walk succeeds. */
  lemma EmitsToken(f: string, i: nat, args: seq<Arg>)
    requires i < |f| < INT && CString(f) && Emit(f, i, args).Some?
    ensures var (token, n) := TokenAt(f, i);
            i + n <= |f| &&
            match token
            case Directive(kind) =>
              && args != [] && Matches(kind, args[0])
              && Emit(f, i, args) == Item(Encode(ArgObj(kind, args[0])), Emit(f, i + n, args[1..]))
            case NilWord => Emit(f, i, args) == Item([0xc0], Emit(f, i + n, args))
            case Unexpected => false
            case Close(_) => n == 1 && Emit(f, i, args) == Emit(f, i + n, args)
            case Percent => Emit(f, i, args) == Emit(f, i + n, args)
            case Other => Emit(f, i, args) == Emit(f, i + n, args)
            case _ => n == 1
  {
    hide Scan, Head, CString, ArgObj, Matches, At, NilAt, DirectiveAt;
  }

  lemma OneItem(done: seq<seq<byte>>, chunk: seq<byte>, whole: Option<seq<seq<byte>>>, rest: Option<seq<seq<byte>>>)
    requires whole.Some? && whole == Item(chunk, rest)
    ensures rest.Some? && (done + [chunk]) + rest.value == done + whole.value
  {
  }

  /** One round of the walk, at position f with the arguments left. */
  method Round(out: Output, dataSize: nat, format: string, f: nat, args: seq<Arg>, ghost before: seq<byte>,
               ghost done: seq<seq<byte>>)
    returns (f': nat, args': seq<Arg>, ghost done': seq<seq<byte>>)
    requires f < |format| < INT && CString(format) && Emit(format, f, args).Some?
    requires out.Holds(before, done, dataSize)
    modifies out`pos, out`result, out.data
    ensures f < f' <= |format| && out.Holds(before, done', dataSize)
    ensures Emit(format, f', args').Some? && done' + Emit(format, f', args').value == done + Emit(format, f, args).value
  {
    hide *;
    EmitsToken(format, f, args);
    var (token, n) := TokenAt(format, f);
    f', args', done' := f + n, args, done;
    match token
    case OpenArray =>
      EmitsHeader(format, f, args, true);
      var size := CountItems(format, f, true);
      HeadIs(true, size);
      done' := Append(out, dataSize, ArrayHead(size), before, done, Emit(format, f, args), Emit(format, f', args'));
    case OpenMap =>
      EmitsHeader(format, f, args, false);
      var count := CountItems(format, f, false);
      assert count % 2 == 0;
      var size := count / 2;
      HeadIs(false, count);
      done' := Append(out, dataSize, MapHead(size), before, done, Emit(format, f, args), Emit(format, f', args'));
    case Directive(kind) =>
      var chunk := EncodeArg(kind, args[0]);
      args' := args[1..];
      done' := Append(out, dataSize, chunk, before, done, Emit(format, f, args), Emit(format, f', args'));
    case NilWord =>
      done' := Append(out, dataSize, [0xc0], before, done, Emit(format, f, args), Emit(format, f', args'));
    case Close(_) =>
    case Percent =>
    case Other =>
  }

  lemma HeadIs(square: bool, n: nat)
    requires n < INT
    ensures n < 0x1_0000_0000 && Head(square, n) == if square then ArrayHead(n) else MapHead(n / 2)
  {
  }

  /** One item of the walk goes out. */
  method Append(out: Output, dataSize: nat, chunk: seq<byte>, ghost before: seq<byte>, ghost done: seq<seq<byte>>,
                ghost whole: Option<seq<seq<byte>>>, ghost rest: Option<seq<seq<byte>>>)
    returns (ghost done': seq<seq<byte>>)
    requires out.Holds(before, done, dataSize) && whole.Some? && whole == Item(chunk, rest)
    modifies out`pos, out`result, out.data
    ensures out.Holds(before, done', dataSize) && rest.Some? && done' + rest.value == done + whole.value
  {
    OneItem(done, chunk, whole, rest);
    out.Put(chunk, dataSize, before, done);
    done' := done + [chunk];
  }

  lemma {:induction false} ParseEnds(f: string, i: nat, args: seq<Arg>)
    requires i <= |f| && CString(f) && Parse(f, i, None, args).Done?
    ensures Parse(f, i, None, args).next == |f|
    decreases |f| - i
  {
    hide StepAt;
    if i < |f| {
      LevelsLookAlike(f, i, None, args);
      match StepAt(f, i, None, args)
      case Skip(next) => ParseEnds(f, next, args);
      case Take(_, next, args') => ParseEnds(f, next, args');
      case Nest(square) =>
        var inner := Parse(f, i + 1, Some(square), args);
        ParseEnds(f, inner.next, inner.args);
    }
  }

  lemma WholeWritten(size: nat, chunks: seq<seq<byte>>, before: seq<byte>)
    ensures Written([], size) == [] && Total([]) == 0 && before[0..] == before && Total(chunks) == |Concat(chunks)|
  {
  }

  /** What the buffer and the counters hold, spelt out. */
  lemma HoldsMeans(out: Output, before: seq<byte>, done: seq<seq<byte>>, size: nat)
    requires out.Holds(before, done, size)
    ensures var written := Written(done, size);
            && out.result == Total(done) && |written| <= size <= |before|
            && out.data[..] == written + before[|written|..]
  {
    assert out.data[..] == out.data[..out.pos] + out.data[out.pos..];
  }

  /** The loop. */
  method Walk(out: Output, dataSize: nat, format: string, args: seq<Arg>, ghost before: seq<byte>,
              ghost chunks: seq<seq<byte>>)
    requires |format| < INT && CString(format) && Emit(format, 0, args) == Some(chunks)
    requires out.pos == out.result == 0 && out.data[..] == before && dataSize <= |before|
    requires Written([], dataSize) == [] && Total([]) == 0 && before[0..] == before
    modifies out`pos, out`result, out.data
    ensures out.Holds(before, chunks, dataSize)
  {
    var f, rest := 0, args;
    ghost var done: seq<seq<byte>> := [];
    assert done + chunks == chunks;
    EndOfWalk(format);
    hide Emit, CString, Written, Total;
    assert out.Holds(before, done, dataSize);
    hide *;
    while f < |format|
      invariant f <= |format| && out.Holds(before, done, dataSize)
      invariant Emit(format, f, rest).Some? && done + Emit(format, f, rest).value == chunks
      decreases |format| - f
    {
      f, rest, done := Round(out, dataSize, format, f, rest, before, done);
    }
    assert done + [] == done;
  }

  lemma EndOfWalk(f: string)
    requires |f| < INT && CString(f)
    ensures forall args :: Emit(f, |f|, args) == Some([])
  {
  }

  /** mp_vformat. For a format that denotes trees and arguments that match it: the result is the
      size of their encoding, whatever the size of the buffer, and of the encoding the longest run
      of items that fits is written at the start of the buffer and nothing else. */
  method VFormat(data: array<byte>, dataSize: nat, format: string, args: seq<Arg>) returns (result: nat)
    requires dataSize <= data.Length && |format| < INT && CString(format)
    requires Parse(format, 0, None, args).Done?
    modifies data
    ensures AllSized(Parse(format, 0, None, args).trees)
    ensures var trees := Parse(format, 0, None, args).trees;
            var written := Written(AllChunks(trees), dataSize);
            && result == |EncodeAll(TreeObjs(trees))|
            && (result <= dataSize ==> written == EncodeAll(TreeObjs(trees)))
            && |written| <= dataSize && data[..] == written + old(data[..])[|written|..]
    ensures AllReadable(args) && result <= dataSize ==> ReadsAs(data[..result], FormatMarks(format, 0, 0, args))
  {
    FormatMeans(format, args);
    ghost var trees := Parse(format, 0, None, args).trees;
    ghost var before := data[..];
    FittingIsWritten(AllChunks(trees), dataSize);
    WholeWritten(dataSize, AllChunks(trees), before);
    hide *;
    var out := new Output(data);
    Walk(out, dataSize, format, args, before, AllChunks(trees));
    HoldsMeans(out, before, AllChunks(trees), dataSize);
    result := out.result;
    if AllReadable(args) && result <= dataSize {
      OutputReadsAsFormat(format, args);
      assert data[..result] == EncodeAll(TreeObjs(trees));
    }
  }

  lemma FormatMeans(f: string, args: seq<Arg>)
    requires |f| < INT && CString(f) && Parse(f, 0, None, args).Done?
    ensures var trees := Parse(f, 0, None, args).trees;
            AllSized(trees) && Emit(f, 0, args) == Some(AllChunks(trees))
                && Concat(AllChunks(trees)) == EncodeAll(TreeObjs(trees))
  {
    ParseEnds(f, 0, args);
    EmitsTheTrees(f, 0, None, args);
    var trees := Parse(f, 0, None, args).trees;
    AllChunksAreEncoding(trees);
    assert AllChunks(trees) + [] == AllChunks(trees);
  }

  // ----- What a reader makes of it

  ghost predicate Readable(arg: Arg) { arg.Message? ==> WellFormed(arg.obj) && Standard(arg.obj) }

  /** What a directive says about its argument. */
  ghost function ArgValue(kind: Kind, arg: Arg): R.Value
    requires Matches(kind, arg) && Readable(arg)
  {
    match kind
    case SignedInt(_) => R.Int(arg.value)
    case UnsignedInt(_) => R.Int(arg.value)
    case Text => R.Text(arg.text)
    case Packed => R.ValueOf(arg.obj)
    case Float => R.Real(arg.bits)
    case Double => R.Real(arg.bits)
    case Boolean => R.Bool(arg.on)
  }

  lemma BigOfU64(n: nat)
    requires n < TWO64
    ensures R.Big(StoreU64(n)) == n
  {
    hide BigEndian, R.Big;
    R.BigOfSum(BigEndian(n / TWO32, W32), BigEndian(n % TWO32, W32));
    R.BigOfBigEndian(n / TWO32, W32);
    R.BigOfBigEndian(n % TWO32, W32);
    assert R.Power256(4) == TWO32;
  }

  lemma UintReads(n: nat)
    requires n < TWO64
    ensures Standard(UintObj(n)) && R.ValueOf(UintObj(n)) == R.Int(n)
  {
    hide BigEndian, R.Big, StoreU64;
    if 0x7f < n <= 0xff { R.BigOfBigEndian(n, W8); }
    else if 0xff < n <= 0xffff { R.BigOfBigEndian(n, W16); }
    else if 0xffff < n <= 0xffff_ffff { R.BigOfBigEndian(n, W32); }
    else if 0xffff_ffff < n { BigOfU64(n); }
  }

  /** A number in the upper half of its width is a negative one. */
  lemma SignedField(m: nat, w: Width)
    requires w.Limit() / 2 <= m < w.Limit()
    ensures R.Signed(BigEndian(m, w)) == m - w.Limit()
  {
    R.BigOfBigEndian(m, w);
    hide R.Big;
    assert R.Power256(1) == 0x100 && R.Power256(2) == 0x1_0000 && R.Power256(4) == 0x1_0000_0000;
  }

  lemma SignedU64(m: nat)
    requires TWO64 / 2 <= m < TWO64
    ensures R.Signed(StoreU64(m)) == m - TWO64
  {
    BigOfU64(m);
    hide R.Big;
    assert R.Power256(4) == TWO32 && R.Power256(8) == TWO64;
    var high := BigEndian(m / TWO32, W32);
    assert StoreU64(m)[0] == high[0] == m / TWO32 / 0x100_0000;
  }

  lemma IntReads(n: int)
    requires -LONG <= n < 0
    ensures Standard(IntObj(n)) && R.ValueOf(IntObj(n)) == R.Int(n)
  {
    hide BigEndian, R.Signed, StoreU64;
    if -0x80 <= n < -0x20 { SignedField(0x100 + n, W8); }
    else if -0x8000 <= n < -0x80 { SignedField(0x1_0000 + n, W16); }
    else if -0x8000_0000 <= n < -0x8000 { SignedField(TWO32 + n, W32); }
    else if n < -0x8000_0000 { SignedU64(TWO64 + n); }
  }

  /** Every argument is read back as what it was, whatever follows its bytes. */
  lemma ArgReads(kind: Kind, arg: Arg, t: seq<byte>)
    requires Matches(kind, arg) && Readable(arg)
    ensures Standard(ArgObj(kind, arg)) && R.ValueOf(ArgObj(kind, arg)) == ArgValue(kind, arg)
    ensures R.Read(Encode(ArgObj(kind, arg)) + t) == Some((ArgValue(kind, arg), t))
    ensures kind == Packed ==> Encode(ArgObj(kind, arg)) == Encode(arg.obj)
  {
    hide Encode, R.Read, UintObj, IntObj, R.ReadHead;
    if kind.SignedInt? && arg.value < 0 {
      IntReads(arg.value);
    } else if kind.SignedInt? || kind.UnsignedInt? {
      UintReads(arg.value);
    }
    R.ReadsBack(ArgObj(kind, arg), t);
  }

  /** What the documentation allows behind a percent sign. */
  ghost predicate Names(word: string, token: Token) {
    || (word in ["d", "i", "hd", "hi", "hhd", "hhi"] && token == Directive(SignedInt(false)))
    || (word in ["ld", "li", "lld", "lli"] && token == Directive(SignedInt(true)))
    || (word in ["u", "hu", "hhu"] && token == Directive(UnsignedInt(false)))
    || (word in ["lu", "llu"] && token == Directive(UnsignedInt(true)))
    || (word in ["s", ".*s"] && token == Directive(Text))
    || (word in ["p", ".*p"] && token == Directive(Packed))
    || (word == "f" && token == Directive(Float))
    || (word == "lf" && token == Directive(Double))
    || (word == "b" && token == Directive(Boolean))
    || (word == "%" && token == Percent)
  }

  lemma WordIsRecognised(f: string, i: nat, word: string, token: Token)
    requires i < |f| && Names(word, token) && word <= f[i..]
    ensures DirectiveAt(f, i) == (token, |word|)
  {
    assert At(f, i) == word[0];
    if |word| > 1 { assert At(f, i + 1) == word[1]; }
    if |word| > 2 { assert At(f, i + 2) == word[2]; }
  }

  lemma RecognisedIsAWord(f: string, i: nat)
    requires i < |f| && CString(f) && DirectiveAt(f, i).0 != Unexpected
    ensures var (token, n) := DirectiveAt(f, i); i + n <= |f| && Names(f[i..i + n], token)
  {
    var (token, n) := DirectiveAt(f, i);
    var word := f[i..i + n];
    if n == 1 {
      assert word == [At(f, i)];
    } else if n == 2 {
      assert word == [At(f, i), At(f, i + 1)];
    } else {
      assert word == [At(f, i), At(f, i + 1), At(f, i + 2)];
    }
  }

  /** Each of these words is recognised, and nothing else behind a percent sign is. */
  lemma EveryDirectiveIsRecognised(f: string, i: nat)
    requires i < |f| && CString(f) && f[i] == '%'
    ensures forall word, token :: Names(word, token) && word <= f[i + 1..] ==> TokenAt(f, i) == (token, 1 + |word|)
    ensures var (token, n) := TokenAt(f, i);
            token == Unexpected || (i + n <= |f| && Names(f[i + 1..i + n], token))
  {
    hide Names, DirectiveAt, CString;
    forall word, token | Names(word, token) && word <= f[i + 1..]
      ensures TokenAt(f, i) == (token, 1 + |word|)
    {
      NoWordIsEmpty(word, token);
      WordIsRecognised(f, i + 1, word, token);
    }
    if TokenAt(f, i).0 != Unexpected {
      PastTheEnd(f, i + 1);
      RecognisedIsAWord(f, i + 1);
    }
  }

  lemma NoWordIsEmpty(word: string, token: Token)
    requires Names(word, token)
    ensures word != []
  {
  }

  lemma PastTheEnd(f: string, i: nat)
    ensures DirectiveAt(f, i).0 != Unexpected ==> i < |f|
  {
  }

  /** Values written as brackets and leaves. */
  datatype Mark = Open(square: bool) | Shut(square: bool) | Scalar(v: R.Value)

  ghost function Marks(v: R.Value): seq<Mark>
    decreases v, 0
  {
    match v
    case List(items) => [Open(true)] + AllMarks(items) + [Shut(true)]
    case Dict(items) => [Open(false)] + AllMarks(items) + [Shut(false)]
    case _ => [Scalar(v)]
  }

  ghost function AllMarks(vs: seq<R.Value>): seq<Mark>
    decreases vs, 1
  {
    if vs == [] then [] else Marks(vs[0]) + AllMarks(vs[1..])
  }

  /** The brackets of the format from position i on, which is depth levels deep, and between them
      the arguments its directives take. */
  ghost function FormatMarks(f: string, i: nat, depth: nat, args: seq<Arg>): seq<Mark>
    requires i <= |f| && CString(f)
    decreases |f| - i
  {
    if i == |f| then []
    else
      var (token, n) := TokenAt(f, i);
      match token
      case OpenArray => [Open(true)] + FormatMarks(f, i + n, depth + 1, args)
      case OpenMap => [Open(false)] + FormatMarks(f, i + n, depth + 1, args)
      case Close(square) =>
        if depth == 0 then FormatMarks(f, i + n, 0, args) else [Shut(square)] + FormatMarks(f, i + n, depth - 1, args)
      case Directive(kind) =>
        if args == [] || !Matches(kind, args[0]) || !Readable(args[0]) then []
        else Marks(ArgValue(kind, args[0])) + FormatMarks(f, i + n, depth, args[1..])
      case NilWord => [Scalar(R.Nil)] + FormatMarks(f, i + n, depth, args)
      case Percent => FormatMarks(f, i + n, depth, args)
      case Other => FormatMarks(f, i + n, depth, args)
      case Unexpected => []
  }

  ghost predicate AllReadable(args: seq<Arg>) { forall a :: a in args ==> Readable(a) }

  ghost predicate AllStandard(objs: seq<Obj>) { forall o :: o in objs ==> Standard(o) }

  lemma {:induction false} AllMarksOfSum(a: seq<R.Value>, b: seq<R.Value>)
    ensures AllMarks(a + b) == AllMarks(a) + AllMarks(b)
  {
    if a == [] {
      assert a + b == b;
    } else {
      assert (a + b)[1..] == a[1..] + b;
      AllMarksOfSum(a[1..], b);
    }
  }

  lemma StepOfDirective(f: string, i: nat, level: Option<bool>, args: seq<Arg>)
    requires i < |f| && CString(f) && TokenAt(f, i).0.Directive?
    ensures var (token, n) := TokenAt(f, i);
            StepAt(f, i, level, args)
            == if args == [] || !Matches(token.kind, args[0]) then Mistake
               else Take(ArgObj(token.kind, args[0]), i + n, args[1..])
  {
    hide ArgObj, Matches, TokenAt, CString;
  }

  lemma MarksOfDirective(f: string, i: nat, depth: nat, args: seq<Arg>)
    requires i < |f| && CString(f) && TokenAt(f, i).0.Directive?
    requires args != [] && Matches(TokenAt(f, i).0.kind, args[0]) && Readable(args[0])
    ensures var (token, n) := TokenAt(f, i);
            i + n <= |f|
            && FormatMarks(f, i, depth, args)
                == Marks(ArgValue(token.kind, args[0])) + FormatMarks(f, i + n, depth, args[1..])
  {
    hide Matches, TokenAt, CString, ArgValue, Marks, Readable;
  }

  lemma RestIsReadable(args: seq<Arg>)
    requires AllReadable(args) && args != []
    ensures Readable(args[0]) && AllReadable(args[1..])
  {
    hide Readable;
    assert args[0] in args;
    forall a | a in args[1..] ensures a in args {}
  }

  lemma DirectiveMarks(f: string, i: nat, level: Option<bool>, depth: nat, args: seq<Arg>)
    requires i < |f| && CString(f) && AllReadable(args) && TokenAt(f, i).0.Directive?
    ensures var s := StepAt(f, i, level, args);
            s == Mistake || (s.Take? && Standard(s.o) && AllReadable(s.args)
              && FormatMarks(f, i, depth, args) == Marks(R.ValueOf(s.o)) + FormatMarks(f, s.next, depth, s.args))
  {
    hide ArgObj, Matches, TokenAt, CString, ArgValue, Marks, Readable, AllReadable, StepAt, FormatMarks, Standard,
         R.ValueOf;
    StepOfDirective(f, i, level, args);
    var kind := TokenAt(f, i).0.kind;
    if args != [] && Matches(kind, args[0]) {
      RestIsReadable(args);
      ArgReads(kind, args[0], []);
      MarksOfDirective(f, i, depth, args);
    }
  }

  /** The marks of one step. */
  lemma FormatMarksStep(f: string, i: nat, level: Option<bool>, depth: nat, args: seq<Arg>)
    requires i < |f| && CString(f) && AllReadable(args) && (level.Some? <==> depth > 0)
    ensures match StepAt(f, i, level, args)
            case End =>
              depth > 0 && FormatMarks(f, i, depth, args)
                  == [Shut(level.value)] + FormatMarks(f, i + 1, depth - 1, args)
            case Skip(next) => FormatMarks(f, i, depth, args) == FormatMarks(f, next, depth, args)
            case Take(o, next, args') =>
              && Standard(o) && AllReadable(args')
              && FormatMarks(f, i, depth, args) == Marks(R.ValueOf(o)) + FormatMarks(f, next, depth, args')
            case Nest(square) =>
              FormatMarks(f, i, depth, args) == [Open(square)] + FormatMarks(f, i + 1, depth + 1, args)
            case Mistake => true
  {
    hide ArgObj, Matches, ArgValue, AllReadable, TokenAt, Marks, R.ValueOf, Standard, CString;
    if TokenAt(f, i).0.Directive? {
      DirectiveMarks(f, i, level, depth, args);
    } else {
      BracketsAreShort(f, i);
      NilMeans();
    }
  }

  lemma BracketsAreShort(f: string, i: nat)
    requires i < |f| && CString(f)
    ensures var (token, n) := TokenAt(f, i); (token.OpenArray? || token.OpenMap? || token.Close? ==> n == 1)
  {
    hide DirectiveAt;
  }

  lemma NilMeans()
    ensures WellFormed(Single(0xc0)) && Standard(Single(0xc0)) && Marks(R.ValueOf(Single(0xc0))) == [Scalar(R.Nil)]
  {
  }

  ghost predicate Reads(trees: seq<Tree>, marks: seq<Mark>) {
    && AllSized(trees) && AllStandard(TreeObjs(trees))
    && AllMarks(R.ValuesOf(TreeObjs(trees))) == marks
  }

  lemma NothingReads()
    ensures Reads([], [])
  {
  }

  lemma OneMoreReads(t: Tree, trees: seq<Tree>, marks: seq<Mark>)
    requires Sized(t) && Standard(TreeObj(t)) && Reads(trees, marks)
    ensures Reads([t] + trees, Marks(R.ValueOf(TreeObj(t))) + marks)
  {
    var all := [t] + trees;
    assert all[1..] == trees;
    hide Standard, TreeObj, R.ValueOf, Sized;
    assert TreeObjs(all) == [TreeObj(t)] + TreeObjs(trees);
    assert TreeObjs(all)[1..] == TreeObjs(trees);
    var vs := R.ValuesOf(TreeObjs(all));
    assert vs[1..] == R.ValuesOf(TreeObjs(trees));
  }

  lemma CollectionIsStandard(o: Obj)
    requires o.FixArr? || o.Arr? || o.FixMap? || o.Map?
    requires AllStandard(o.items)
    ensures Standard(o)
  {
  }

  lemma ArrayMeans(objs: seq<Obj>)
    requires AllWellFormed(objs) && |objs| < INT && AllStandard(objs)
    ensures Standard(ArrayObj(objs)) && R.ValueOf(ArrayObj(objs)) == R.List(R.ValuesOf(objs))
  {
    hide WellFormed, AllWellFormed, Standard, AllStandard, R.ValueOf, R.ValuesOf;
    CollectionIsStandard(ArrayObj(objs));
    R.CollectionMeans(ArrayObj(objs));
  }

  lemma MapMeans(objs: seq<Obj>)
    requires AllWellFormed(objs) && |objs| < INT && |objs| % 2 == 0 && AllStandard(objs)
    ensures Standard(MapObj(objs)) && R.ValueOf(MapObj(objs)) == R.Dict(R.ValuesOf(objs))
  {
    hide WellFormed, AllWellFormed, Standard, AllStandard, R.ValueOf, R.ValuesOf;
    CollectionIsStandard(MapObj(objs));
    R.CollectionMeans(MapObj(objs));
  }

  lemma NestedReads(square: bool, items: seq<Tree>, marks: seq<Mark>)
    requires Reads(items, marks) && |items| < INT && (!square ==> |items| % 2 == 0)
    ensures var t := if square then ArrayOf(items) else MapOf(items);
            && Sized(t) && Standard(TreeObj(t))
            && Marks(R.ValueOf(TreeObj(t))) == [Open(square)] + marks + [Shut(square)]
  {
    hide AllMarks, TreeObjs, AllSized, Standard, R.ValueOf, R.ValuesOf, ArrayObj, MapObj, AllStandard, WellFormed;
    var objs := TreeObjs(items);
    if square { ArrayMeans(objs); } else { MapMeans(objs); }
  }

  /** What follows a level in the format: its closing bracket and the marks behind it. */
  ghost function MarksBehind(f: string, level: Option<bool>, depth: nat, p: Parsed): seq<Mark>
    requires CString(f) && p.Done? && p.next <= |f|
  {
    if level.None? || depth == 0 then [] else [Shut(level.value)] + FormatMarks(f, p.next, depth - 1, p.args)
  }

  ghost predicate Continues(p: Parsed, t: Tree, rest: Parsed) {
    p.Done? && rest.Done? && p.trees == [t] + rest.trees && p.next == rest.next && p.args == rest.args
  }

  lemma ParseUnfolds(f: string, i: nat, level: Option<bool>, args: seq<Arg>)
    requires i < |f| && CString(f) && Parse(f, i, level, args).Done?
    ensures var p := Parse(f, i, level, args);
            match StepAt(f, i, level, args)
            case End => p == Done([], i + 1, args)
            case Skip(next) => Parse(f, next, level, args) == p
            case Take(o, next, args') => WellFormed(o) && Continues(p, Leaf(o), Parse(f, next, level, args'))
            case Nest(square) =>
              var inner := Parse(f, i + 1, Some(square), args);
              && inner.Done? && |inner.trees| <= |f| - i && (!square ==> |inner.trees| % 2 == 0)
              && i < inner.next <= |f|
              && Continues(p, if square then ArrayOf(inner.trees) else MapOf(inner.trees),
                           Parse(f, inner.next, level, inner.args))
            case Mistake => false
  {
    hide StepAt, CString, WellFormed;
  }

  lemma ParseAtEnd(f: string, level: Option<bool>, args: seq<Arg>)
    requires CString(f) && Parse(f, |f|, level, args).Done?
    ensures level.None? && Parse(f, |f|, level, args) == Done([], |f|, args)
  {
  }

  lemma MarksAtEnd(f: string, depth: nat, args: seq<Arg>)
    requires CString(f)
    ensures FormatMarks(f, |f|, depth, args) == []
  {
  }

  lemma SameBehind(f: string, level: Option<bool>, depth: nat, p: Parsed, q: Parsed)
    requires CString(f) && p.Done? && q.Done? && p.next == q.next <= |f| && p.args == q.args
    ensures MarksBehind(f, level, depth, p) == MarksBehind(f, level, depth, q)
  {
  }

  /** The conclusion for a level: its trees read as marks, and the format goes on behind it. */
  ghost predicate LevelReads(f: string, level: Option<bool>, depth: nat, p: Parsed, marks: seq<Mark>,
                             whole: seq<Mark>) {
    && CString(f) && p.Done? && p.next <= |f| && Reads(p.trees, marks) && AllReadable(p.args)
    && whole == marks + MarksBehind(f, level, depth, p)
  }

  lemma TreeInFront(f: string, level: Option<bool>, depth: nat, p: Parsed, t: Tree, m: seq<Mark>, q: Parsed,
                    marks: seq<Mark>, whole: seq<Mark>)
    requires LevelReads(f, level, depth, q, marks, whole) && Continues(p, t, q)
    requires Sized(t) && Standard(TreeObj(t)) && m == Marks(R.ValueOf(TreeObj(t)))
    ensures LevelReads(f, level, depth, p, m + marks, m + whole)
  {
    hide Reads, FormatMarks, Standard, R.ValueOf, Sized, TreeObj, Marks, AllReadable, CString;
    OneMoreReads(t, q.trees, marks);
    SameBehind(f, level, depth, p, q);
    assert m + (marks + MarksBehind(f, level, depth, q)) == (m + marks) + MarksBehind(f, level, depth, q);
  }

  /** A nested level and what stands behind it. */
  lemma LevelInFront(f: string, square: bool, level: Option<bool>, depth: nat, p: Parsed, inner: Parsed,
                     inside: seq<Mark>, q: Parsed, marks: seq<Mark>)
    returns (m: seq<Mark>)
    requires inner.Done? && CString(f) && inner.next <= |f| && |inner.trees| < INT
    requires (!square ==> |inner.trees| % 2 == 0)
    requires Reads(inner.trees, inside)
    requires LevelReads(f, level, depth, q, marks, FormatMarks(f, inner.next, depth, inner.args))
    requires Continues(p, if square then ArrayOf(inner.trees) else MapOf(inner.trees), q)
    ensures LevelReads(f, level, depth, p, m,
                       [Open(square)] + (inside + ([Shut(square)] + FormatMarks(f, inner.next, depth, inner.args))))
  {
    hide Reads, FormatMarks, Standard, R.ValueOf, Sized, TreeObj, Marks, AllReadable, CString, LevelReads, Continues;
    NestedReads(square, inner.trees, inside);
    var t := if square then ArrayOf(inner.trees) else MapOf(inner.trees);
    var whole := FormatMarks(f, inner.next, depth, inner.args);
    var own := [Open(square)] + inside + [Shut(square)];
    TreeInFront(f, level, depth, p, t, own, q, marks, whole);
    m := own + marks;
    assert own + whole == [Open(square)] + (inside + ([Shut(square)] + whole));
  }

  /** The trees of a level, read back, have the marks of the format. */
  lemma {:induction false} TreesRead(f: string, i: nat, level: Option<bool>, depth: nat, args: seq<Arg>)
    returns (marks: seq<Mark>)
    requires i <= |f| < INT && CString(f) && AllReadable(args) && (level.Some? <==> depth > 0)
    requires Parse(f, i, level, args).Done?
    ensures LevelReads(f, level, depth, Parse(f, i, level, args), marks, FormatMarks(f, i, depth, args))
    decreases |f| - i, 0
  {
    hide Parse, StepAt, Reads, FormatMarks, AllReadable, CString, Standard, R.ValueOf, Sized, TreeObj, Marks,
         WellFormed;
    NothingReads();
    if i == |f| {
      ParseAtEnd(f, level, args);
      MarksAtEnd(f, depth, args);
      marks := [];
    } else {
      ParseUnfolds(f, i, level, args);
      FormatMarksStep(f, i, level, depth, args);
      var p := Parse(f, i, level, args);
      match StepAt(f, i, level, args)
      case End => marks := [];
      case Skip(next) => marks := TreesRead(f, next, level, depth, args);
      case Take(o, next, args') =>
        marks := LeafCase(f, level, depth, p, o, next, args');
      case Nest(square) =>
        var inner := Parse(f, i + 1, Some(square), args);
        var inside := TreesRead(f, i + 1, Some(square), depth + 1, args);
        LevelMeans(f, square, depth + 1, inner, inside, FormatMarks(f, i + 1, depth + 1, args));
        var rest := TreesRead(f, inner.next, level, depth, inner.args);
        marks := LevelInFront(f, square, level, depth, p, inner, inside, Parse(f, inner.next, level, inner.args), rest);
    }
  }

  lemma LevelMeans(f: string, square: bool, depth: nat, p: Parsed, marks: seq<Mark>, whole: seq<Mark>)
    requires LevelReads(f, Some(square), depth, p, marks, whole) && depth > 0
    ensures CString(f) && p.Done? && p.next <= |f| && Reads(p.trees, marks) && AllReadable(p.args)
    ensures whole == marks + ([Shut(square)] + FormatMarks(f, p.next, depth - 1, p.args))
  {
    hide Reads, FormatMarks, AllReadable, CString;
  }

  lemma {:induction false} LeafCase(f: string, level: Option<bool>, depth: nat, p: Parsed, o: Obj, next: nat,
                                    args: seq<Arg>)
    returns (marks: seq<Mark>)
    requires next <= |f| < INT && CString(f) && AllReadable(args) && (level.Some? <==> depth > 0)
    requires WellFormed(o) && Standard(o) && Continues(p, Leaf(o), Parse(f, next, level, args))
    ensures LevelReads(f, level, depth, p, marks, Marks(R.ValueOf(o)) + FormatMarks(f, next, depth, args))
    decreases |f| - next, 1
  {
    hide Parse, Reads, FormatMarks, AllReadable, CString, Standard, R.ValueOf, Sized, TreeObj, Marks, WellFormed,
         LevelReads;
    var rest := TreesRead(f, next, level, depth, args);
    LeafReads(o);
    TreeInFront(f, level, depth, p, Leaf(o), Marks(R.ValueOf(o)), Parse(f, next, level, args), rest,
                FormatMarks(f, next, depth, args));
    marks := Marks(R.ValueOf(o)) + rest;
  }

  lemma LeafReads(o: Obj)
    requires WellFormed(o)
    ensures Sized(Leaf(o)) && TreeObj(Leaf(o)) == o
  {
  }

  /** Some values that are read from s, all of it, have these marks. */
  ghost predicate ReadsAs(s: seq<byte>, marks: seq<Mark>) {
    exists vs: seq<R.Value> :: R.ReadMany(s, |vs|) == Some((vs, [])) && AllMarks(vs) == marks
  }

  /** Reading the whole output gives back the format's brackets and the arguments its directives
      took, in their places. */
  lemma OutputReadsAsFormat(f: string, args: seq<Arg>)
    requires |f| < INT && CString(f) && Parse(f, 0, None, args).Done? && AllReadable(args)
    requires AllSized(Parse(f, 0, None, args).trees)
    ensures ReadsAs(EncodeAll(TreeObjs(Parse(f, 0, None, args).trees)), FormatMarks(f, 0, 0, args))
  {
    var trees := Parse(f, 0, None, args).trees;
    var marks := TreesRead(f, 0, None, 0, args);
    assert marks + [] == marks;
    hide Parse, FormatMarks, R.ReadMany, AllMarks, EncodeAll, CString, AllReadable, Standard;
    var objs := TreeObjs(trees);
    R.ReadsAllBack(objs, []);
    assert EncodeAll(objs) + [] == EncodeAll(objs);
  }
}

/** What the printed text says: a reader of it, and that it finds the printed value again. */
module MsgPackText {
  import opened Basics
  import opened PowersOfTwo
  import opened MsgPackGrammar
  import N = MsgPackNumbers
  import P = MsgPackPrint
  import R = MsgPackRead

  datatype Shown =
    | Null
    | Truth(on: bool)
    | Num(n: int)
    | Quote(data: seq<byte>)      // strings and binary data look alike
    | Undefined
    | Listed(items: seq<Shown>)
    | Mapped(items: seq<Shown>)   // keys and values, alternating

  // ----- The reader

  predicate IsDigit(c: char) { '0' <= c <= '9' }

  /** How many digits stand in front. */
  function LeadingDigits(s: string): (k: nat)
    ensures k <= |s|
  {
    if s == "" || !IsDigit(s[0]) then 0 else 1 + LeadingDigits(s[1..])
  }

  /** The number that decimal digits stand for, most significant first. */
  function Positional(s: string): int {
    if s == "" then 0 else 10 * Positional(s[..|s| - 1]) + (s[|s| - 1] as int - '0' as int)
  }

  function ReadDigits(s: string): Option<(int, string)> {
    var k := LeadingDigits(s);
    if k == 0 then None else Some((Positional(s[..k]), s[k..]))
  }

  function HexValue(c: char): Option<nat> {
    if IsDigit(c) then Some(c as int - '0' as int)
    else if 'a' <= c <= 'f' then Some(10 + (c as int - 'a' as int))
    else None
  }

  /** What a letter behind a backslash stands for. */
  function Unescape(c: char): Option<byte> {
    match c
    case 'b' => Some(8)
    case 't' => Some(9)
    case 'n' => Some(10)
    case 'f' => Some(12)
    case 'r' => Some(13)
    case '"' => Some(34)
    case '/' => Some(47)
    case '\\' => Some(92)
    case _ => None
  }

  /** One character inside quotes, as the byte it stands for. */
  function ReadChar(s: string): (r: Option<(byte, string)>)
    requires s != ""
    ensures r.Some? ==> |r.value.1| < |s|
  {
    if s[0] != '\\' then
      if s[0] as int < 256 then Some((s[0] as int, s[1..])) else None
    else if "\\u00" <= s && |s| >= 6 then
      var a, b := HexValue(s[4]), HexValue(s[5]);
      if a.Some? && b.Some? then Some((16 * a.value + b.value, s[6..])) else None
    else if |s| < 2 || Unescape(s[1]).None? then None
    else Some((Unescape(s[1]).value, s[2..]))
  }

  /** Up to the closing quote. */
  function ReadQuoted(s: string): (r: Option<(seq<byte>, string)>)
    ensures r.Some? ==> |r.value.1| < |s|
    decreases |s|
  {
    if s == "" then None
    else if s[0] == '"' then Some(([], s[1..]))
    else
      match ReadChar(s)
      case None => None
      case Some((c, rest)) =>
        match ReadQuoted(rest)
        case None => None
        case Some((d, after)) => Some(([c] + d, after))
  }

  function ReadText(s: string): (r: Option<(Shown, string)>)
    ensures r.Some? ==> |r.value.1| < |s|
    decreases |s|, 0
  {
    if s == "" then None
    else if s[0] == '"' then
      (match ReadQuoted(s[1..]) case None => None case Some((d, rest)) => Some((Quote(d), rest)))
    else if s[0] == '[' then
      (match ReadItems(s[1..], true) case None => None case Some((items, rest)) => Some((Listed(items), rest)))
    else if s[0] == '{' then
      (match ReadPairs(s[1..], true) case None => None case Some((items, rest)) => Some((Mapped(items), rest)))
    else if "null" <= s then Some((Null, s[4..]))
    else if "true" <= s then Some((Truth(true), s[4..]))
    else if "false" <= s then Some((Truth(false), s[5..]))
    else if "undefined" <= s then Some((Undefined, s[9..]))
    else if s[0] == '-' then
      (match ReadDigits(s[1..]) case None => None case Some((n, rest)) => Some((Num(-n), rest)))
    else
      match ReadDigits(s) case None => None case Some((n, rest)) => Some((Num(n), rest))
  }

  /** Items up to the closing bracket. */
  function ReadItems(s: string, first: bool): (r: Option<(seq<Shown>, string)>)
    ensures r.Some? ==> |r.value.1| <= |s|
    decreases |s|, 1
  {
    if s != "" && s[0] == ']' then Some(([], s[1..]))
    else if !first && !(", " <= s) then None
    else
      match ReadText(if first then s else s[2..])
      case None => None
      case Some((v, rest)) =>
        match ReadItems(rest, false)
        case None => None
        case Some((more, after)) => Some(([v] + more, after))
  }

  function ReadPairs(s: string, first: bool): (r: Option<(seq<Shown>, string)>)
    ensures r.Some? ==> |r.value.1| <= |s|
    decreases |s|, 1
  {
    if s != "" && s[0] == '}' then Some(([], s[1..]))
    else if !first && !(", " <= s) then None
    else
      match ReadText(if first then s else s[2..])
      case None => None
      case Some((key, middle)) =>
        if !(": " <= middle) then None
        else
          match ReadText(middle[2..])
          case None => None
          case Some((v, rest)) =>
            match ReadPairs(rest, false)
            case None => None
            case Some((more, after)) => Some(([key, v] + more, after))
  }

  // ----- What is shown of a value

  function Show(v: R.Value): Shown
    decreases v, 0
  {
    match v
    case Nil => Null
    case Bool(on) => Truth(on)
    case Int(n) => Num(n)
    case Text(d) => Quote(d)
    case Blob(d) => Quote(d)
    case List(items) => Listed(ShowAll(items))
    case Dict(items) => Mapped(ShowAll(items))
    case Extension(_, _) => Undefined
    case Real(_) => Undefined     // left to the formatting of floating-point numbers
  }

  function ShowAll(vs: seq<R.Value>): (s: seq<Shown>)
    ensures |s| == |vs|
    decreases vs, 1
  {
    if vs == [] then [] else [Show(vs[0])] + ShowAll(vs[1..])
  }

  predicate NoFloats(o: Obj) {
    !(o.Number? && o.c <= 0xcb) && forall x :: x in o.Children() ==> NoFloats(x)
  }

  // ----- Numbers

  ghost predicate Digits(s: string) { forall c :: c in s ==> IsDigit(c) }

  ghost predicate Ends(t: string) { t == "" || !IsDigit(t[0]) }

  lemma {:induction false} DigitsInFront(s: string, t: string)
    requires Digits(s) && Ends(t)
    ensures LeadingDigits(s + t) == |s|
  {
    if s == "" {
      assert s + t == t;
    } else {
      assert s[0] in s;
      forall c | c in s[1..] ensures c in s {}
      DigitsInFront(s[1..], t);
      assert (s + t)[1..] == s[1..] + t;
    }
  }

  lemma PositionalOfOneMore(s: string, c: char)
    ensures Positional(s + [c]) == 10 * Positional(s) + (c as int - '0' as int)
  {
    assert (s + [c])[..|s|] == s;
  }

  lemma {:induction false} DecimalIsPositional(n: nat)
    ensures P.Decimal(n) != "" && Digits(P.Decimal(n)) && Positional(P.Decimal(n)) == n
    ensures n > 0 ==> P.Decimal(n)[0] != '0'
  {
    if n < 10 {
      PositionalOfOneMore("", (n + '0' as int) as char);
      assert "" + P.Decimal(n) == P.Decimal(n);
    } else {
      DecimalIsPositional(n / 10);
      PositionalOfOneMore(P.Decimal(n / 10), (n % 10 + '0' as int) as char);
    }
  }

  /** Reading a decimal number gives it back. */
  lemma DecimalReads(n: nat, t: string)
    requires Ends(t)
    ensures ReadDigits(P.Decimal(n) + t) == Some((n, t))
  {
    DecimalIsPositional(n);
    DigitsInFront(P.Decimal(n), t);
    hide P.Decimal, Positional, LeadingDigits;
    var s := P.Decimal(n) + t;
    assert s[..|P.Decimal(n)|] == P.Decimal(n) && s[|P.Decimal(n)|..] == t;
  }

  lemma NumberReads(n: int, t: string)
    requires Ends(t)
    ensures ReadText(P.SignedDecimal(n) + t) == Some((Num(n), t))
  {
    hide ReadDigits, P.Decimal, ReadQuoted, ReadItems, ReadPairs;
    var d := P.Decimal(if n < 0 then -n else n);
    DecimalIsPositional(if n < 0 then -n else n);
    DecimalReads(if n < 0 then -n else n, t);
    assert d[0] in d;
    var s := P.SignedDecimal(n) + t;
    if n < 0 {
      assert s[1..] == d + t && s[0] == '-';
    } else {
      assert s == d + t && s[0] == d[0];
    }
  }

  // ----- Strings

  /** The escaped bytes. */
  ghost function Escaped(d: seq<byte>): string {
    if d == [] then "" else P.Escape(d[0]) + Escaped(d[1..])
  }

  lemma {:induction false} EscapedOfOneMore(d: seq<byte>, c: byte)
    ensures Escaped(d + [c]) == Escaped(d) + P.Escape(c)
  {
    hide P.Escape;
    if d == [] {
      assert [] + [c] == [c] && [c][1..] == [];
    } else {
      assert (d + [c])[1..] == d[1..] + [c];
      EscapedOfOneMore(d[1..], c);
    }
  }

  lemma {:induction false} QuotedIsEscaped(d: seq<byte>)
    ensures P.QuotedText(d) == "\"" + Escaped(d)
  {
    hide P.Escape;
    if d != [] {
      var n := |d| - 1;
      QuotedIsEscaped(d[..n]);
      EscapedOfOneMore(d[..n], d[n]);
      assert d[..n] + [d[n]] == d;
    }
  }

  lemma HexReads(n: nat)
    requires n < 16
    ensures HexValue(P.HexDigit(n)) == Some(n)
  {
  }

  /** Reading an escaped byte gives it back. */
  lemma EscapeReads(c: byte, t: string)
    ensures P.Escape(c) != "" && P.Escape(c)[0] != '"' && ReadChar(P.Escape(c) + t) == Some((c, t))
  {
    var e := P.Escape(c);
    var s := e + t;
    assert forall k :: 0 <= k < |e| ==> s[k] == e[k];
    if |e| == 6 {
      HexReads(c / 16);
      HexReads(c % 16);
      assert s[..4] == "\\u00";
      assert s[6..] == t;
    } else if |e| == 2 {
      assert s[2..] == t;
      assert s[1] != 'u';
    } else {
      assert s[1..] == t;
    }
  }

  lemma {:induction false} QuotedReads(d: seq<byte>, t: string)
    ensures ReadQuoted(Escaped(d) + "\"" + t) == Some((d, t))
    decreases |d|
  {
    hide P.Escape, ReadChar;
    var s := Escaped(d) + "\"" + t;
    if d == [] {
      assert s == "\"" + t;
    } else {
      var rest := Escaped(d[1..]) + "\"" + t;
      EscapeReads(d[0], rest);
      QuotedReads(d[1..], t);
      assert s == P.Escape(d[0]) + rest;
      assert [d[0]] + d[1..] == d;
    }
  }

  lemma StringReads(d: seq<byte>, t: string)
    ensures ReadText(P.QuotedText(d) + "\"" + t) == Some((Quote(d), t))
  {
    hide P.QuotedText, Escaped, ReadQuoted, ReadItems, ReadPairs, ReadDigits;
    QuotedIsEscaped(d);
    QuotedReads(d, t);
    var s := P.QuotedText(d) + "\"" + t;
    assert s[0] == '"' && s[1..] == Escaped(d) + "\"" + t;
  }

  // ----- Scalars

  lemma WordsRead(t: string)
    ensures ReadText("null" + t) == Some((Null, t))
    ensures ReadText("true" + t) == Some((Truth(true), t)) && ReadText("false" + t) == Some((Truth(false), t))
    ensures ReadText("undefined" + t) == Some((Undefined, t))
  {
    hide ReadItems, ReadPairs, ReadDigits, ReadQuoted;
    assert ("null" + t)[..4] == "null" && ("null" + t)[4..] == t;
    assert ("true" + t)[..4] == "true" && ("true" + t)[4..] == t;
    assert ("false" + t)[..5] == "false" && ("false" + t)[5..] == t;
    assert ("undefined" + t)[..9] == "undefined" && ("undefined" + t)[9..] == t;
  }

  /** The two ways of reading a sign agree. */
  lemma SignedAlike(d: seq<byte>, n: nat, limit: nat)
    requires d != [] && n == R.Big(d) && limit == R.Power256(|d|) && (n >= limit / 2 <==> d[0] >= 128)
    ensures N.Signed(n, limit) == R.Signed(d)
  {
  }

  lemma FieldIsSigned(d: seq<byte>, w: Width)
    requires |d| == (match w case W8 => 1 case W16 => 2 case W32 => 4)
    ensures Load(d, 0, w) == R.Big(d) && N.Signed(Load(d, 0, w), w.Limit()) == R.Signed(d)
  {
    R.LoadIsBig(d, 0, w);
    assert d[0..|d|] == d;
    assert R.Power256(1) == 0x100 && R.Power256(2) == 0x1_0000 && R.Power256(4) == 0x1_0000_0000;
    assert Load(d, 0, w) >= w.Limit() / 2 <==> d[0] >= 128;
    hide R.Big, Load;
    SignedAlike(d, Load(d, 0, w), w.Limit());
  }

  lemma SignOfU64(d: seq<byte>)
    requires |d| == 8
    ensures N.LoadU64(d, 0) >= TWO64 / 2 <==> d[0] >= 128
  {
    var high := Load(d, 0, W32);
    assert high >= 0x8000_0000 <==> d[0] >= 128;
    hide Load;
  }

  /** What a number is shown as, by both readers. */
  lemma NumbersAlike(o: Obj, floats: P.Floats)
    requires WellFormed(o) && Standard(o) && o.Number? && o.c > 0xcb
    ensures R.ValueOf(o).Int? && P.Text(o, floats) == P.SignedDecimal(R.ValueOf(o).n)
  {
    var d := o.data;
    if |d| == 8 {
      R.LoadU64IsBig(d);
      SignOfU64(d);
      assert R.Power256(4) == TWO32 && R.Power256(8) == TWO64;
      hide R.Big, N.LoadU64;
      SignedAlike(d, N.LoadU64(d, 0), TWO64);
    } else {
      FieldIsSigned(d, if |d| == 1 then W8 else if |d| == 2 then W16 else W32);
    }
    hide Load, N.LoadU64, R.Big, P.Decimal, N.Signed, R.Signed;
    BigIsNatural(d);
  }

  lemma BigIsNatural(d: seq<byte>)
    ensures R.Big(d) >= 0
  {
  }

  lemma ScalarReads(o: Obj, floats: P.Floats, t: string)
    requires WellFormed(o) && Standard(o) && NoFloats(o) && !R.IsList(o) && !R.IsDict(o) && Ends(t)
    ensures ReadText(P.Text(o, floats) + t) == Some((Show(R.ValueOf(o)), t))
  {
    hide ReadText, P.Decimal, P.QuotedText, R.Big, R.Signed, N.Signed, Load, P.NumberText;
    match o
    case Single(c) =>
      WordsRead(t);
      NumberReads(if c <= 0x7f then c else c - 0x100, t);
    case Number(_, _) =>
      NumbersAlike(o, floats);
      hide P.Text, R.ValueOf, Standard, WellFormed;
      NumberReads(R.ValueOf(o).n, t);
    case FixStr(d) => StringReads(d, t);
    case Str(_, d) => StringReads(d, t);
    case Bin(_, d) => StringReads(d, t);
    case FixExt(_, _) => WordsRead(t);
    case Ext(_, _, _) => WordsRead(t);
    case WrappedMap(_, _) => R.NotWrapped(o);
  }

  // ----- Lists and maps

  ghost predicate AllPlain(items: seq<Obj>) {
    AllWellFormed(items) && forall x :: x in items ==> Standard(x) && NoFloats(x)
  }

  /** The text of the items from i on. */
  ghost function ItemsFrom(items: seq<Obj>, i: nat, floats: P.Floats): string
    requires AllWellFormed(items) && i <= |items|
    decreases |items| - i
  {
    if i == |items| then "]" else P.Separator(i) + P.Text(items[i], floats) + ItemsFrom(items, i + 1, floats)
  }

  ghost function PairsFrom(items: seq<Obj>, i: nat, floats: P.Floats): string
    requires AllWellFormed(items) && |items| % 2 == 0 && i <= |items| / 2
    decreases |items| - i
  {
    if i == |items| / 2 then "}"
    else
      P.Separator(i) + P.Text(items[2 * i], floats) + ": " + P.Text(items[2 * i + 1], floats)
      + PairsFrom(items, i + 1, floats)
  }

  /** The item at i and what follows it. */
  lemma ItemsUnfold(items: seq<Obj>, i: nat, floats: P.Floats)
    requires AllWellFormed(items) && i < |items|
    ensures var sep, text := P.Separator(i), P.Text(items[i], floats);
            && P.ItemsText(items, i + 1, floats) == P.ItemsText(items, i, floats) + sep + text
            && ItemsFrom(items, i, floats) == sep + text + ItemsFrom(items, i + 1, floats)
  {
    hide P.Text, P.Separator, WellFormed;
  }

  lemma Associated(a: string, b: string, c: string, d: string)
    ensures a + b + c + d == a + (b + c + d)
  {
  }

  lemma {:induction false} ItemsTextIs(items: seq<Obj>, i: nat, floats: P.Floats)
    requires AllWellFormed(items) && i <= |items|
    ensures P.ItemsText(items, |items|, floats) + "]" == P.ItemsText(items, i, floats) + ItemsFrom(items, i, floats)
    decreases |items| - i
  {
    if i == |items| {
      assert ItemsFrom(items, i, floats) == "]";
    } else {
      hide P.Text, P.Separator, WellFormed, P.ItemsText, ItemsFrom;
      ItemsTextIs(items, i + 1, floats);
      ItemsUnfold(items, i, floats);
      Associated(P.ItemsText(items, i, floats), P.Separator(i), P.Text(items[i], floats),
                 ItemsFrom(items, i + 1, floats));
    }
  }

  lemma Reassociated(a: string, b: string, c: string, d: string, e: string)
    ensures a + b + c + ": " + d + e == a + (b + c + ": " + d + e)
  {
  }

  /** The pair at i and what follows it. */
  lemma PairsUnfold(items: seq<Obj>, i: nat, floats: P.Floats)
    requires AllWellFormed(items) && |items| % 2 == 0 && i < |items| / 2
    ensures var sep, key, v := P.Separator(i), P.Text(items[2 * i], floats), P.Text(items[2 * i + 1], floats);
            && P.PairsText(items, i + 1, floats) == P.PairsText(items, i, floats) + sep + key + ": " + v
            && PairsFrom(items, i, floats) == sep + key + ": " + v + PairsFrom(items, i + 1, floats)
  {
    hide P.Text, P.Separator, WellFormed;
    assert 2 * (i + 1) - 2 == 2 * i && 2 * (i + 1) - 1 == 2 * i + 1;
  }

  lemma {:induction false} PairsTextIs(items: seq<Obj>, i: nat, floats: P.Floats)
    requires AllWellFormed(items) && |items| % 2 == 0 && i <= |items| / 2
    ensures P.PairsText(items, |items| / 2, floats) + "}" == P.PairsText(items, i, floats) + PairsFrom(items, i, floats)
    decreases |items| - i
  {
    if i == |items| / 2 {
      assert PairsFrom(items, i, floats) == "}";
    } else {
      hide P.Text, P.Separator, WellFormed, P.PairsText, PairsFrom;
      PairsTextIs(items, i + 1, floats);
      PairsUnfold(items, i, floats);
      Reassociated(P.PairsText(items, i, floats), P.Separator(i), P.Text(items[2 * i], floats),
                   P.Text(items[2 * i + 1], floats), PairsFrom(items, i + 1, floats));
    }
  }

  /** No text looks like a closing bracket. */
  lemma TextStarts(o: Obj, floats: P.Floats)
    requires WellFormed(o) && Standard(o) && NoFloats(o)
    ensures var s := P.Text(o, floats); s != "" && s[0] != ']' && s[0] != '}'
  {
    hide Load;
    if o.Number? {
      NumbersAlike(o, floats);
      DecimalStarts(R.ValueOf(o).n);
    } else if o.Single? {
      DecimalStarts(if o.c <= 0x7f then o.c else o.c - 0x100);
      hide P.Decimal;
    } else if o.FixStr? || o.Str? || o.Bin? {
      QuotedIsEscaped(o.data);
    } else if R.IsList(o) {
      ItemsTextIs(o.items, 0, floats);
    } else if R.IsDict(o) {
      PairsTextIs(o.items, 0, floats);
    } else {
      if o.WrappedMap? { R.NotWrapped(o); }
    }
  }

  lemma DecimalStarts(n: int)
    ensures var s := P.SignedDecimal(n); s != "" && s[0] != ']' && s[0] != '}'
  {
    var d := P.Decimal(if n < 0 then -n else n);
    DecimalIsPositional(if n < 0 then -n else n);
    hide P.Decimal;
    assert d[0] in d && IsDigit(d[0]);
  }

  lemma FromEnds(items: seq<Obj>, i: nat, floats: P.Floats, t: string)
    requires AllWellFormed(items) && 0 < i <= |items|
    ensures Ends(ItemsFrom(items, i, floats) + t)
  {
    hide P.Text;
    assert ItemsFrom(items, i, floats)[0] == if i == |items| then ']' else ',';
  }

  lemma PairsEnd(items: seq<Obj>, i: nat, floats: P.Floats, t: string)
    requires AllWellFormed(items) && |items| % 2 == 0 && 0 < i <= |items| / 2
    ensures Ends(PairsFrom(items, i, floats) + t)
  {
    hide P.Text;
    assert PairsFrom(items, i, floats)[0] == if i == |items| / 2 then '}' else ',';
  }

  /** The separator and what it separates. */
  lemma PastSeparator(i: nat, text: string, rest: string)
    requires text != ""
    ensures var s := P.Separator(i) + text + rest;
            s != "" && s[0] == (if i == 0 then text[0] else ',') && (i > 0 ==> ", " <= s)
            && (if i == 0 then s else s[2..]) == text + rest
  {
    var s := P.Separator(i) + text + rest;
    if i == 0 {
      assert s == text + rest;
    } else {
      assert s[..2] == ", " && s[2..] == text + rest;
    }
  }

  /** One item in front of what is read already. */
  lemma NextItemReads(i: nat, text: string, v: Shown, rest: string, more: seq<Shown>, t: string)
    requires text != "" && text[0] != ']'
    requires ReadText(text + rest) == Some((v, rest)) && ReadItems(rest, false) == Some((more, t))
    ensures ReadItems(P.Separator(i) + text + rest, i == 0) == Some(([v] + more, t))
  {
    hide ReadText, P.Separator;
    PastSeparator(i, text, rest);
  }

  /** What ReadPairs finds at s: the key up to middle, behind the colon the value up to rest. */
  ghost predicate PairAt(s: string, first: bool, k: Shown, middle: string, v: Shown, rest: string) {
    && s != "" && s[0] != '}' && (first || ", " <= s)
    && ReadText(if first then s else s[2..]) == Some((k, middle))
    && ": " <= middle && ReadText(middle[2..]) == Some((v, rest))
  }

  lemma PairsStep(s: string, first: bool, k: Shown, middle: string, v: Shown, rest: string, more: seq<Shown>, t: string)
    requires PairAt(s, first, k, middle, v, rest) && ReadPairs(rest, false) == Some((more, t))
    ensures ReadPairs(s, first) == Some(([k, v] + more, t))
  {
    hide ReadText;
  }

  lemma NextPairReads(i: nat, key: string, k: Shown, text: string, v: Shown, rest: string, more: seq<Shown>, t: string)
    requires key != "" && key[0] != '}'
    requires ReadText(key + (": " + text + rest)) == Some((k, ": " + text + rest))
    requires ReadText(text + rest) == Some((v, rest)) && ReadPairs(rest, false) == Some((more, t))
    ensures ReadPairs(P.Separator(i) + key + (": " + text + rest), i == 0) == Some(([k, v] + more, t))
  {
    hide ReadText, ReadPairs, P.Separator;
    var middle := ": " + text + rest;
    assert middle[..2] == ": " && middle[2..] == text + rest;
    PastSeparator(i, key, middle);
    PairsStep(P.Separator(i) + key + middle, i == 0, k, middle, v, rest, more, t);
  }

  lemma NoMoreItems(t: string, first: bool)
    ensures ReadItems("]" + t, first) == Some(([], t)) && ReadPairs("}" + t, first) == Some(([], t))
  {
    assert ("]" + t)[1..] == t && ("}" + t)[1..] == t;
  }

  lemma ListReads(s: string, items: seq<Shown>, t: string)
    ensures ReadItems(s, true) == Some((items, t)) ==> ReadText("[" + s) == Some((Listed(items), t))
    ensures ReadPairs(s, true) == Some((items, t)) ==> ReadText("{" + s) == Some((Mapped(items), t))
  {
    hide ReadItems, ReadPairs;
    assert ("[" + s)[1..] == s && ("{" + s)[1..] == s;
  }

  ghost function ShowObjs(items: seq<Obj>): seq<Shown>
    requires AllPlain(items)
  {
    ShowAll(R.ValuesOf(items))
  }

  lemma ItemsEnded(items: seq<Obj>, floats: P.Floats)
    requires AllWellFormed(items)
    ensures ItemsFrom(items, |items|, floats) == "]"
  {
  }

  lemma Grouped(a: string, b: string, c: string)
    ensures a + b + c == a + (b + c)
  {
  }

  lemma PairsEnded(items: seq<Obj>, floats: P.Floats)
    requires AllWellFormed(items) && |items| % 2 == 0
    ensures PairsFrom(items, |items| / 2, floats) == "}"
  {
  }

  lemma NothingShown()
    ensures AllPlain([]) && ShowObjs([]) == []
  {
  }

  lemma ShowObjsFirst(items: seq<Obj>)
    requires AllPlain(items) && items != []
    ensures AllPlain(items[1..]) && WellFormed(items[0]) && Standard(items[0]) && NoFloats(items[0])
    ensures ShowObjs(items) == [Show(R.ValueOf(items[0]))] + ShowObjs(items[1..])
  {
    hide WellFormed, Standard, NoFloats, R.ValueOf, Show;
    assert items[0] in items;
    forall x | x in items[1..] ensures x in items {}
    assert R.ValuesOf(items)[1..] == R.ValuesOf(items[1..]);
  }

  /** Reading the text of an object gives back its value, whatever follows that is not a digit. */
  lemma {:induction false} TextReads(o: Obj, floats: P.Floats, t: string)
    requires WellFormed(o) && Standard(o) && NoFloats(o) && Ends(t)
    ensures ReadText(P.Text(o, floats) + t) == Some((Show(R.ValueOf(o)), t))
    decreases o, 0, 0
  {
    hide ReadText, P.Text, Show, R.ValueOf, WellFormed, Standard, NoFloats;
    if R.IsList(o) || R.IsDict(o) {
      ItemsArePlain(o);
      CollectionText(o, floats);
      CollectionShows(o);
      var items := o.items;
      assert items[0..] == items;
      if R.IsList(o) {
        ItemsRead(items, 0, floats, t);
        assert P.Text(o, floats) + t == "[" + (ItemsFrom(items, 0, floats) + t);
        ListReads(ItemsFrom(items, 0, floats) + t, ShowObjs(items), t);
      } else {
        PairsRead(items, 0, floats, t);
        assert P.Text(o, floats) + t == "{" + (PairsFrom(items, 0, floats) + t);
        ListReads(PairsFrom(items, 0, floats) + t, ShowObjs(items), t);
      }
    } else {
      ScalarReads(o, floats, t);
    }
  }

  lemma ItemsArePlain(o: Obj)
    requires WellFormed(o) && Standard(o) && NoFloats(o) && (R.IsList(o) || R.IsDict(o))
    ensures AllPlain(o.items) && (R.IsDict(o) ==> |o.items| % 2 == 0)
  {
    assert o.items == o.Children();
  }

  /** The text of a list or map: its bracket, and the items one after the other. */
  lemma CollectionText(o: Obj, floats: P.Floats)
    requires WellFormed(o) && (R.IsList(o) || R.IsDict(o)) && AllWellFormed(o.items)
    requires R.IsDict(o) ==> |o.items| % 2 == 0
    ensures P.Text(o, floats)
         == if R.IsList(o) then "[" + ItemsFrom(o.items, 0, floats) else "{" + PairsFrom(o.items, 0, floats)
  {
    hide WellFormed, AllWellFormed;
    if R.IsList(o) {
      ItemsTextIs(o.items, 0, floats);
      hide ItemsFrom;
      assert P.ItemsText(o.items, 0, floats) == "[";
    } else {
      PairsTextIs(o.items, 0, floats);
      hide PairsFrom;
      assert P.PairsText(o.items, 0, floats) == "{";
    }
  }

  lemma CollectionShows(o: Obj)
    requires WellFormed(o) && Standard(o) && (R.IsList(o) || R.IsDict(o)) && AllPlain(o.items)
    ensures Show(R.ValueOf(o)) == if R.IsDict(o) then Mapped(ShowObjs(o.items)) else Listed(ShowObjs(o.items))
  {
    R.CollectionMeans(o);
    hide R.ValueOf, ShowAll, R.ValuesOf, Standard, WellFormed;
  }

  lemma {:induction false} ItemsRead(items: seq<Obj>, i: nat, floats: P.Floats, t: string)
    requires AllPlain(items) && i <= |items|
    ensures AllPlain(items[i..])
    ensures ReadItems(ItemsFrom(items, i, floats) + t, i == 0) == Some((ShowObjs(items[i..]), t))
    decreases items, 1, |items| - i
  {
    hide ItemsFrom, ReadText, ReadItems, P.Text, Show, R.ValueOf, WellFormed, Standard, NoFloats, Ends, P.Separator,
         ShowObjs;
    forall x | x in items[i..] ensures x in items {}
    if i == |items| {
      assert items[i..] == [];
      ItemsEnded(items, floats);
      NothingShown();
      NoMoreItems(t, i == 0);
    } else {
      assert items[i] in items;
      ItemsRead(items, i + 1, floats, t);
      var rest := ItemsFrom(items, i + 1, floats) + t;
      FromEnds(items, i + 1, floats, t);
      TextReads(items[i], floats, rest);
      TextStarts(items[i], floats);
      ShowObjsFirst(items[i..]);
      assert items[i..][1..] == items[i + 1..];
      NextItemReads(i, P.Text(items[i], floats), Show(R.ValueOf(items[i])), rest, ShowObjs(items[i + 1..]), t);
      ItemsUnfold(items, i, floats);
      Grouped(P.Separator(i) + P.Text(items[i], floats), ItemsFrom(items, i + 1, floats), t);
    }
  }

  lemma {:induction false} PairsRead(items: seq<Obj>, i: nat, floats: P.Floats, t: string)
    requires AllPlain(items) && |items| % 2 == 0 && i <= |items| / 2
    ensures AllPlain(items[2 * i..])
    ensures ReadPairs(PairsFrom(items, i, floats) + t, i == 0) == Some((ShowObjs(items[2 * i..]), t))
    decreases items, 1, |items| - i
  {
    hide PairsFrom, ReadText, ReadPairs, P.Text, Show, R.ValueOf, WellFormed, Standard, NoFloats, Ends, P.Separator,
         ShowObjs;
    forall x | x in items[2 * i..] ensures x in items {}
    if i == |items| / 2 {
      assert items[2 * i..] == [];
      PairsEnded(items, floats);
      NothingShown();
      NoMoreItems(t, i == 0);
    } else {
      var key, value := items[2 * i], items[2 * i + 1];
      assert key in items && value in items;
      PairsRead(items, i + 1, floats, t);
      var rest := PairsFrom(items, i + 1, floats) + t;
      PairsEnd(items, i + 1, floats, t);
      TextReads(value, floats, rest);
      var text := P.Text(value, floats);
      ColonEnds(text, rest);
      TextReads(key, floats, ": " + text + rest);
      TextStarts(key, floats);
      ShowObjsFirst(items[2 * i..]);
      ShowObjsFirst(items[2 * i + 1..]);
      assert items[2 * i..][1..] == items[2 * i + 1..] && items[2 * i + 1..][1..] == items[2 * (i + 1)..];
      var more := ShowObjs(items[2 * (i + 1)..]);
      var k, v := Show(R.ValueOf(key)), Show(R.ValueOf(value));
      assert [k, v] + more == [k] + ([v] + more);
      NextPairReads(i, P.Text(key, floats), k, text, v, rest, more, t);
      PairsUnfold(items, i, floats);
      Rejoined(P.Separator(i), P.Text(key, floats), text, PairsFrom(items, i + 1, floats), t);
    }
  }

  lemma ColonEnds(text: string, rest: string)
    ensures Ends(": " + text + rest)
  {
  }

  lemma Rejoined(a: string, b: string, c: string, d: string, e: string)
    ensures a + b + ": " + c + d + e == a + b + (": " + c + (d + e))
  {
  }

  /** The printed text determines what is shown: two objects printed alike have the same value, but
      for what the text cannot tell apart. */
  lemma PrintedAlike(o: Obj, o': Obj, floats: P.Floats)
    requires WellFormed(o) && Standard(o) && NoFloats(o) && WellFormed(o') && Standard(o') && NoFloats(o')
    ensures P.Text(o, floats) == P.Text(o', floats) ==> Show(R.ValueOf(o)) == Show(R.ValueOf(o'))
  {
    TextReads(o, floats, "");
    TextReads(o', floats, "");
  }
}

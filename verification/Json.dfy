/**
 The strict JSON reader and the canonical printer of a proof (tools/src/json.ts,
 tools/src/jcs.ts), over texts of UTF-16 code units, as JavaScript strings are.
 The printer is the JSON Canonicalization Scheme, RFC 8785.
 */
module Json {
  import opened ByteStrings
  import opened Texts

  /** An object is the finite map of its members: JSON gives their order no meaning. */
  datatype Json =
    | Null
    | Bool(b: bool)
    | Number(n: int)
    | Str(s: Text)
    | Arr(items: seq<Json>)
    | Obj(members: map<Text, Json>)

  const MAX_SAFE: int := 9007199254740991

  const MAX_DEPTH: nat := 64

  // ---- characters ----

  const QUOTE: CodeUnit := 0x22
  const COMMA: CodeUnit := 0x2c
  const MINUS: CodeUnit := 0x2d
  const DOT: CodeUnit := 0x2e
  const SLASH: CodeUnit := 0x2f
  const COLON: CodeUnit := 0x3a
  const OPEN_BRACKET: CodeUnit := 0x5b
  const BACKSLASH: CodeUnit := 0x5c
  const CLOSE_BRACKET: CodeUnit := 0x5d
  const OPEN_BRACE: CodeUnit := 0x7b
  const CLOSE_BRACE: CodeUnit := 0x7d

  const TRUE_WORD: Text := [0x74, 0x72, 0x75, 0x65]
  const FALSE_WORD: Text := [0x66, 0x61, 0x6c, 0x73, 0x65]
  const NULL_WORD: Text := [0x6e, 0x75, 0x6c, 0x6c]

  predicate IsSpace(u: CodeUnit) {
    u == 0x20 || u == 0x09 || u == 0x0a || u == 0x0d
  }

  predicate IsDigit(u: CodeUnit) {
    0x30 <= u <= 0x39
  }

  predicate StartsWith(t: Text, u: CodeUnit) {
    |t| > 0 && t[0] == u
  }

  // ---- numbers ----

  function Digits(n: nat): (d: Text)
    ensures |d| > 0
  {
    if n < 10 then [0x30 + n] else Digits(n / 10) + [0x30 + n % 10]
  }

  function Decimal(n: int): Text {
    if n < 0 then [MINUS] + Digits(-n) else Digits(n)
  }

  function DigitValue(u: CodeUnit): nat
    requires IsDigit(u)
  {
    var value: int := u;
    value - 0x30
  }

  function ReadDigits(d: Text): nat
    requires forall i | 0 <= i < |d| :: IsDigit(d[i])
  {
    if |d| == 0 then 0 else 10 * ReadDigits(d[..|d| - 1]) + DigitValue(d[|d| - 1])
  }

  /** How many digits `t` starts with. */
  function DigitRun(t: Text): (n: nat)
    ensures n <= |t|
    ensures forall i | 0 <= i < n :: IsDigit(t[i])
    ensures n < |t| ==> !IsDigit(t[n])
  {
    if |t| > 0 && IsDigit(t[0]) then 1 + DigitRun(t[1..]) else 0
  }

  /** How much of `t` the unsigned part of an integer literal takes: 0, or a run that does not start with it. */
  function Unsigned(t: Text): (n: nat)
    ensures n <= DigitRun(t) <= |t|
  {
    if |t| == 0 || !IsDigit(t[0]) then 0 else if t[0] == 0x30 then 1 else DigitRun(t)
  }

  /** After an integer, a fraction or an exponent makes a longer number literal. */
  predicate MoreNumber(t: Text) {
    || (|t| >= 2 && t[0] == DOT && IsDigit(t[1]))
    || (|t| >= 2 && (t[0] == 0x65 || t[0] == 0x45)
        && (IsDigit(t[1]) || (|t| >= 3 && (t[1] == 0x2b || t[1] == MINUS) && IsDigit(t[2]))))
  }

  function ParseNumber(t: Text): (r: Option<(int, Text)>)
    ensures r.Some? ==> |r.value.1| < |t|
  {
    var sign := if StartsWith(t, MINUS) then 1 else 0;
    var n := Unsigned(t[sign..]);
    if n == 0 then None
    else
      var rest := t[sign + n..];
      if MoreNumber(rest) then None
      else
        var magnitude: int := ReadDigits(t[sign..][..n]);
        var value := if sign == 1 then -magnitude else magnitude;
        if value > MAX_SAFE || value < -MAX_SAFE then None else Some((value, rest))
  }

  lemma {:induction false} DigitsRead(n: nat)
    ensures forall i | 0 <= i < |Digits(n)| :: IsDigit(Digits(n)[i])
    ensures ReadDigits(Digits(n)) == n
    ensures n > 0 ==> Digits(n)[0] != 0x30
    ensures n == 0 ==> Digits(n) == [0x30]
  {
    if n >= 10 {
      DigitsRead(n / 10);
      var d := Digits(n);
      assert d[..|d| - 1] == Digits(n / 10);
    } else {
      assert Digits(n)[..0] == [];
    }
  }

  lemma {:induction false} RunOfDigits(d: Text, rest: Text)
    requires forall i | 0 <= i < |d| :: IsDigit(d[i])
    requires |rest| > 0 ==> !IsDigit(rest[0])
    ensures DigitRun(d + rest) == |d|
  {
    if |d| == 0 {
      assert d + rest == rest;
    } else {
      assert (d + rest)[1..] == d[1..] + rest;
      RunOfDigits(d[1..], rest);
    }
  }

  /** What may follow a value inside a canonical text. */
  predicate Delimited(rest: Text) {
    |rest| == 0 || rest[0] == COMMA || rest[0] == CLOSE_BRACKET || rest[0] == CLOSE_BRACE
  }

  /** A printed integer reads back. */
  lemma NumberRoundTrip(n: int, rest: Text)
    requires -MAX_SAFE <= n <= MAX_SAFE && Delimited(rest)
    ensures ParseNumber(Decimal(n) + rest) == Some((n, rest))
  {
    var magnitude: nat := if n < 0 then -n else n;
    var d := Digits(magnitude);
    DigitsRead(magnitude);
    RunOfDigits(d, rest);
    var t := Decimal(n) + rest;
    var sign := if n < 0 then 1 else 0;
    assert t[sign..] == d + rest;
    assert (d + rest)[..|d|] == d;
    assert t[sign + |d|..] == rest;
    assert Unsigned(d + rest) == |d|;
  }

  // ---- strings ----

  function HexDigit(n: nat): CodeUnit
    requires n < 16
  {
    if n < 10 then 0x30 + n else 0x61 + n - 10
  }

  function ReadHexDigit(u: CodeUnit): Option<nat> {
    if IsDigit(u) then Some(u - 0x30)
    else if 0x61 <= u <= 0x66 then Some(u - 0x61 + 10)
    else if 0x41 <= u <= 0x46 then Some(u - 0x41 + 10)
    else None
  }

  /** backslash, u, four lowercase hex digits */
  function UnicodeEscape(u: CodeUnit): Text {
    [BACKSLASH, 0x75, HexDigit(u / 0x1000), HexDigit(u / 0x100 % 16), HexDigit(u / 0x10 % 16), HexDigit(u % 16)]
  }

  /** The letter of a two-character escape. */
  function ShortEscape(u: CodeUnit): Option<CodeUnit> {
    if u == QUOTE then Some(QUOTE)
    else if u == BACKSLASH then Some(BACKSLASH)
    else if u == 0x08 then Some(0x62)
    else if u == 0x09 then Some(0x74)
    else if u == 0x0a then Some(0x6e)
    else if u == 0x0c then Some(0x66)
    else if u == 0x0d then Some(0x72)
    else None
  }

  function ReadShortEscape(letter: CodeUnit): Option<CodeUnit> {
    if letter == QUOTE || letter == BACKSLASH || letter == SLASH then Some(letter)
    else if letter == 0x62 then Some(0x08)
    else if letter == 0x74 then Some(0x09)
    else if letter == 0x6e then Some(0x0a)
    else if letter == 0x66 then Some(0x0c)
    else if letter == 0x72 then Some(0x0d)
    else None
  }

  /** A code unit that is not half of a pair is escaped when it is a surrogate. */
  function EscapeOne(u: CodeUnit): Text {
    if ShortEscape(u).Some? then [BACKSLASH, ShortEscape(u).value]
    else if u < 0x20 || IsHigh(u) || IsLow(u) then UnicodeEscape(u)
    else [u]
  }

  /** The body of `JSON.stringify` of a string: surrogate pairs stay, lone surrogates are escaped. */
  function Escaped(s: Text): Text {
    if |s| == 0 then []
    else if |s| >= 2 && IsHigh(s[0]) && IsLow(s[1]) then [s[0], s[1]] + Escaped(s[2..])
    else EscapeOne(s[0]) + Escaped(s[1..])
  }

  function Quoted(s: Text): Text {
    [QUOTE] + Escaped(s) + [QUOTE]
  }

  /** Where the scan for a closing quote stops: its place, or past the end. */
  function ClosingQuote(t: Text, at: nat): (end: nat)
    decreases |t| - at
    ensures end >= at
  {
    if at >= |t| || t[at] == QUOTE then at
    else ClosingQuote(t, if t[at] == BACKSLASH then at + 2 else at + 1)
  }

  /** What `JSON.parse` makes of a string literal's body. */
  function Unescaped(body: Text): Option<Text> {
    if |body| == 0 then Some([])
    else if body[0] == QUOTE || body[0] < 0x20 then None
    else if body[0] != BACKSLASH then PrependUnit(body[0], Unescaped(body[1..]))
    else if |body| >= 2 && ReadShortEscape(body[1]).Some? then PrependUnit(ReadShortEscape(body[1]).value, Unescaped(body[2..]))
    else if |body| >= 6 && body[1] == 0x75 && ReadHex(body[2..6]).Some? then PrependUnit(ReadHex(body[2..6]).value, Unescaped(body[6..]))
    else None
  }

  function PrependUnit(u: CodeUnit, rest: Option<Text>): Option<Text> {
    if rest.None? then None else Some([u] + rest.value)
  }

  function ReadHex(d: Text): Option<CodeUnit>
    requires |d| == 4
  {
    var a, b, c, e := ReadHexDigit(d[0]), ReadHexDigit(d[1]), ReadHexDigit(d[2]), ReadHexDigit(d[3]);
    if a.None? || b.None? || c.None? || e.None? then None
    else
      var value := a.value * 0x1000 + b.value * 0x100 + c.value * 0x10 + e.value;
      if value < 0x1_0000 then Some(value) else None
  }

  function ParseString(t: Text): (r: Option<(Text, Text)>)
    requires StartsWith(t, QUOTE)
    ensures r.Some? ==> |r.value.1| < |t|
  {
    var end := ClosingQuote(t, 1);
    if end >= |t| then None
    else
      var s := Unescaped(t[1..end]);
      if s.None? then None else Some((s.value, t[end + 1..]))
  }

  lemma HexRoundTrip(u: CodeUnit)
    ensures ReadHex(UnicodeEscape(u)[2..6]) == Some(u)
  {
    var a, b, c, e := u / 0x1000, u / 0x100 % 16, u / 0x10 % 16, u % 16;
    HexDigitRead(a);
    HexDigitRead(b);
    HexDigitRead(c);
    HexDigitRead(e);
    assert UnicodeEscape(u)[2..6] == [HexDigit(a), HexDigit(b), HexDigit(c), HexDigit(e)];
    HexValue(u);
    hide HexDigit, ReadHexDigit, UnicodeEscape;
  }

  lemma HexValue(u: CodeUnit)
    ensures u == u / 0x1000 * 0x1000 + u / 0x100 % 16 * 0x100 + u / 0x10 % 16 * 0x10 + u % 16
  {
    var tens, hundreds := u / 0x10, u / 0x100;
    assert hundreds == tens / 16 && u / 0x1000 == hundreds / 16;
    assert u == 16 * tens + u % 16;
    assert tens == 16 * hundreds + tens % 16;
    assert hundreds == 16 * (hundreds / 16) + hundreds % 16;
  }

  lemma HexDigitRead(n: nat)
    requires n < 16
    ensures ReadHexDigit(HexDigit(n)) == Some(n)
  {
  }

  /** One escaped unit reads back, whatever follows. */
  lemma EscapeOneRead(u: CodeUnit, rest: Text)
    ensures Unescaped(EscapeOne(u) + rest) == PrependUnit(u, Unescaped(rest))
  {
    var t := EscapeOne(u) + rest;
    if ShortEscape(u).Some? {
      assert t[2..] == rest;
    } else if u < 0x20 || IsHigh(u) || IsLow(u) {
      HexRoundTrip(u);
      assert t[2..6] == UnicodeEscape(u)[2..6];
      assert t[6..] == rest;
    } else {
      assert t[1..] == rest;
    }
  }

  lemma {:induction false} UnescapedEscaped(s: Text)
    ensures Unescaped(Escaped(s)) == Some(s)
  {
    if |s| >= 2 && IsHigh(s[0]) && IsLow(s[1]) {
      UnescapedEscaped(s[2..]);
      var t := Escaped(s);
      assert t[1..][1..] == Escaped(s[2..]);
      assert t[1..][0] == s[1];
      assert s == [s[0]] + ([s[1]] + s[2..]);
    } else if |s| > 0 {
      UnescapedEscaped(s[1..]);
      EscapeOneRead(s[0], Escaped(s[1..]));
      assert s == [s[0]] + s[1..];
    }
  }

  /** The scan passes over one escaped unit. */
  lemma ScanPiece(t: Text, n: nat, u: CodeUnit)
    requires n + |EscapeOne(u)| <= |t| && t[n..n + |EscapeOne(u)|] == EscapeOne(u)
    ensures ClosingQuote(t, n) == ClosingQuote(t, n + |EscapeOne(u)|)
  {
    var piece := EscapeOne(u);
    assert t[n] == piece[0];
    if ShortEscape(u).None? && (u < 0x20 || IsHigh(u) || IsLow(u)) {
      assert t[n + 2] == piece[2] && t[n + 3] == piece[3] && t[n + 4] == piece[4] && t[n + 5] == piece[5];
      ScanPlain(t, n + 2);
      ScanPlain(t, n + 3);
      ScanPlain(t, n + 4);
      ScanPlain(t, n + 5);
    }
  }

  lemma ScanPlain(t: Text, n: nat)
    requires n < |t| && t[n] != QUOTE && t[n] != BACKSLASH
    ensures ClosingQuote(t, n) == ClosingQuote(t, n + 1)
  {
  }

  /** A piece of a text, and what is left after it. */
  lemma Piece(t: Text, at: nat, piece: Text, more: Text)
    requires at <= |t| && t[at..] == piece + more
    ensures at + |piece| <= |t| && t[at..at + |piece|] == piece && t[at + |piece|..] == more
  {
    assert t[at..][..|piece|] == piece;
    assert t[at..][|piece|..] == more;
  }

  lemma PairEscaped(s: Text, rest: Text)
    requires |s| >= 2 && IsHigh(s[0]) && IsLow(s[1])
    ensures Escaped(s) + rest == [s[0], s[1]] + (Escaped(s[2..]) + rest) && |Escaped(s)| == 2 + |Escaped(s[2..])|
  {
  }

  lemma ScanPair(t: Text, at: nat, high: CodeUnit, low: CodeUnit)
    requires at + 2 <= |t| && t[at..at + 2] == [high, low] && IsHigh(high) && IsLow(low)
    ensures ClosingQuote(t, at) == ClosingQuote(t, at + 2)
  {
    assert t[at] == t[at..at + 2][0] && t[at + 1] == t[at..at + 2][1];
    ScanPlain(t, at);
    ScanPlain(t, at + 1);
  }

  lemma UnitEscaped(s: Text, rest: Text)
    requires |s| > 0 && !(|s| >= 2 && IsHigh(s[0]) && IsLow(s[1]))
    ensures Escaped(s) + rest == EscapeOne(s[0]) + (Escaped(s[1..]) + rest) && |Escaped(s)| == |EscapeOne(s[0])| + |Escaped(s[1..])|
  {
    hide EscapeOne;
  }

  lemma {:induction false} ScanEscaped(t: Text, at: nat, s: Text, rest: Text)
    requires at <= |t| && t[at..] == Escaped(s) + rest && StartsWith(rest, QUOTE)
    ensures ClosingQuote(t, at) == at + |Escaped(s)|
    decreases |s|
  {
    if |s| >= 2 && IsHigh(s[0]) && IsLow(s[1]) {
      PairEscaped(s, rest);
      hide Escaped, ClosingQuote;
      Piece(t, at, [s[0], s[1]], Escaped(s[2..]) + rest);
      ScanPair(t, at, s[0], s[1]);
      ScanEscaped(t, at + 2, s[2..], rest);
    } else if |s| > 0 {
      var more := Escaped(s[1..]) + rest;
      UnitEscaped(s, rest);
      hide Escaped, EscapeOne, ClosingQuote;
      Piece(t, at, EscapeOne(s[0]), more);
      ScanPiece(t, at, s[0]);
      ScanEscaped(t, at + |EscapeOne(s[0])|, s[1..], rest);
    } else {
      ScanEnds(t, at, rest);
    }
  }

  lemma ScanEnds(t: Text, at: nat, rest: Text)
    requires at <= |t| && t[at..] == Escaped([]) + rest && StartsWith(rest, QUOTE)
    ensures ClosingQuote(t, at) == at && |Escaped([])| == 0
  {
    assert t[at..][0] == rest[0];
  }

  lemma StringRoundTrip(s: Text, rest: Text)
    ensures StartsWith(Quoted(s) + rest, QUOTE)
    ensures ParseString(Quoted(s) + rest) == Some((s, rest))
  {
    var t := Quoted(s) + rest;
    assert t[1..] == Escaped(s) + ([QUOTE] + rest);
    ScanEscaped(t, 1, s, [QUOTE] + rest);
    var end := 1 + |Escaped(s)|;
    assert t[1..end] == Escaped(s);
    assert t[end + 1..] == rest;
    UnescapedEscaped(s);
  }

  // ---- member order: the code units of the names (section 3.2.3 of RFC 8785) ----

  predicate Precedes(a: Text, b: Text) {
    if |b| == 0 then false
    else if |a| == 0 then true
    else if a[0] != b[0] then a[0] < b[0]
    else Precedes(a[1..], b[1..])
  }

  lemma {:induction false} OrderTotal(a: Text, b: Text)
    ensures !(Precedes(a, b) && Precedes(b, a))
    ensures !Precedes(a, b) && !Precedes(b, a) <==> a == b
  {
    if |a| > 0 && |b| > 0 && a[0] == b[0] {
      OrderTotal(a[1..], b[1..]);
      assert a == [a[0]] + a[1..] && b == [b[0]] + b[1..];
    }
  }

  lemma {:induction false} OrderTransitive(a: Text, b: Text, c: Text)
    requires Precedes(a, b) && Precedes(b, c)
    ensures Precedes(a, c)
  {
    if |a| > 0 && |b| > 0 && |c| > 0 && a[0] == b[0] == c[0] {
      OrderTransitive(a[1..], b[1..], c[1..]);
    }
  }

  predicate IsFirst(names: set<Text>, name: Text) {
    name in names && forall other | other in names && other != name :: Precedes(name, other)
  }

  lemma NamesOrNone(names: set<Text>)
    ensures names == {} || exists name :: name in names
  {
    if forall name :: name !in names {
      assert names == {};
    }
  }

  lemma {:induction false} HasFirst(names: set<Text>)
    requires names != {}
    ensures exists name :: IsFirst(names, name)
    decreases |names|
  {
    NamesOrNone(names);
    var one: Text :| one in names;
    var rest := names - {one};
    assert names == rest + {one};
    if rest == {} {
      assert IsFirst(names, one);
    } else {
      HasFirst(rest);
      var first :| IsFirst(rest, first);
      OrderTotal(one, first);
      if Precedes(one, first) {
        forall other | other in names && other != one
          ensures Precedes(one, other)
        {
          if other != first {
            OrderTransitive(one, first, other);
          }
        }
        assert IsFirst(names, one);
      } else {
        assert IsFirst(names, first);
      }
    }
  }

  lemma FirstUnique(names: set<Text>)
    ensures forall a, b | IsFirst(names, a) && IsFirst(names, b) :: a == b
  {
    forall a, b | IsFirst(names, a) && IsFirst(names, b)
      ensures a == b
    {
      OrderTotal(a, b);
    }
  }

  function First(names: set<Text>): (name: Text)
    requires names != {}
    ensures IsFirst(names, name)
  {
    HasFirst(names);
    FirstUnique(names);
    var name :| name in names && IsFirst(names, name);
    name
  }

  function NamesIn(list: seq<Text>): set<Text> {
    set name | name in list
  }

  ghost predicate Ordered(list: seq<Text>) {
    forall i, j | 0 <= i < j < |list| :: Precedes(list[i], list[j])
  }

  /** The names in order, each once. */
  function InOrder(names: set<Text>): (list: seq<Text>)
    ensures NamesIn(list) == names
    decreases |names|
  {
    if names == {} then []
    else
      var first := First(names);
      NamesCons(first, InOrder(names - {first}));
      assert {first} + (names - {first}) == names;
      [first] + InOrder(names - {first})
  }

  lemma NamesCons(first: Text, rest: seq<Text>)
    ensures NamesIn([first] + rest) == {first} + NamesIn(rest)
  {
    var list := [first] + rest;
    assert list[0] == first && list[1..] == rest;
    forall name | name in rest
      ensures name in list
    {
    }
  }

  lemma {:induction false} InOrderOrdered(names: set<Text>)
    ensures Ordered(InOrder(names))
    decreases |names|
  {
    if names != {} {
      var first := First(names);
      var rest := InOrder(names - {first});
      InOrderOrdered(names - {first});
      forall j | 0 <= j < |rest|
        ensures Precedes(first, rest[j])
      {
        assert rest[j] in NamesIn(rest);
      }
    }
  }

  // ---- the printer ----

  function Jcs(value: Json): (t: Text)
    decreases value, 2
  {
    match value
    case Null => NULL_WORD
    case Bool(b) => if b then TRUE_WORD else FALSE_WORD
    case Number(n) => Decimal(n)
    case Str(s) => Quoted(s)
    case Arr(items) => [OPEN_BRACKET] + JcsItems(items) + [CLOSE_BRACKET]
    case Obj(members) => [OPEN_BRACE] + JcsMembers(value, InOrder(members.Keys)) + [CLOSE_BRACE]
  }

  /** The items, comma between. */
  function JcsItems(items: seq<Json>): Text
    decreases items, 1
  {
    if |items| == 0 then []
    else Jcs(items[0]) + if |items| == 1 then [] else [COMMA] + JcsItems(items[1..])
  }

  /** The members of `whole` named in `names`, in that order. */
  function JcsMembers(whole: Json, names: seq<Text>): Text
    requires whole.Obj? && forall name | name in names :: name in whole.members
    decreases whole, 1, |names|
  {
    if |names| == 0 then []
    else
      var name := names[0];
      Quoted(name) + [COLON] + Jcs(whole.members[name]) + if |names| == 1 then [] else [COMMA] + JcsMembers(whole, names[1..])
  }

  /** What the reader accepts can be printed back: safe integers, and no deeper than the limit. */
  predicate Printable(value: Json, depth: nat)
    decreases value
  {
    && depth <= MAX_DEPTH
    && match value
       case Null => true
       case Bool(_) => true
       case Number(n) => -MAX_SAFE <= n <= MAX_SAFE
       case Str(_) => true
       case Arr(items) => forall i | 0 <= i < |items| :: Printable(items[i], depth + 1)
       case Obj(members) => forall name | name in members :: Printable(members[name], depth + 1)
  }

  // ---- the reader: what it makes of the text from its cursor on, and what it leaves ----

  function SkipSpace(t: Text): (rest: Text)
    ensures |rest| <= |t|
    ensures |rest| > 0 ==> !IsSpace(rest[0])
  {
    if |t| > 0 && IsSpace(t[0]) then SkipSpace(t[1..]) else t
  }

  predicate BeginsWord(t: Text, word: Text) {
    |word| <= |t| && t[..|word|] == word
  }

  function ParseValue(t: Text, depth: nat): (r: Option<(Json, Text)>)
    ensures r.Some? ==> |r.value.1| < |t|
    decreases |t|, 1
  {
    if depth > MAX_DEPTH then None
    else
      var u := SkipSpace(t);
      if StartsWith(u, OPEN_BRACE) then
        var inner := SkipSpace(u[1..]);
        if StartsWith(inner, CLOSE_BRACE) then Some((Obj(map[]), inner[1..])) else ParseMembers(inner, depth, map[])
      else if StartsWith(u, OPEN_BRACKET) then
        var inner := SkipSpace(u[1..]);
        if StartsWith(inner, CLOSE_BRACKET) then Some((Arr([]), inner[1..])) else ParseItems(inner, depth, [])
      else if StartsWith(u, QUOTE) then
        var s := ParseString(u);
        if s.None? then None else Some((Str(s.value.0), s.value.1))
      else if StartsWith(u, MINUS) || (|u| > 0 && IsDigit(u[0])) then
        var n := ParseNumber(u);
        if n.None? then None else Some((Number(n.value.0), n.value.1))
      else if BeginsWord(u, TRUE_WORD) then Some((Bool(true), u[4..]))
      else if BeginsWord(u, FALSE_WORD) then Some((Bool(false), u[5..]))
      else if BeginsWord(u, NULL_WORD) then Some((Null, u[4..]))
      else None
  }

  /** The members still to come, after those in `out`. */
  function ParseMembers(t: Text, depth: nat, out: map<Text, Json>): (r: Option<(Json, Text)>)
    ensures r.Some? ==> |r.value.1| < |t|
    decreases |t|, 0
  {
    var u := SkipSpace(t);
    if !StartsWith(u, QUOTE) then None
    else
      var key := ParseString(u);
      if key.None? || key.value.0 in out then None
      else
        var c := SkipSpace(key.value.1);
        if !StartsWith(c, COLON) then None
        else
          var v := ParseValue(c[1..], depth + 1);
          if v.None? then None
          else
            var more := out[key.value.0 := v.value.0];
            var d := SkipSpace(v.value.1);
            if StartsWith(d, COMMA) then ParseMembers(d[1..], depth, more)
            else if StartsWith(d, CLOSE_BRACE) then Some((Obj(more), d[1..]))
            else None
  }

  function ParseItems(t: Text, depth: nat, out: seq<Json>): (r: Option<(Json, Text)>)
    ensures r.Some? ==> |r.value.1| < |t|
    decreases |t|, 2
  {
    var v := ParseValue(t, depth + 1);
    if v.None? then None
    else
      var d := SkipSpace(v.value.1);
      if StartsWith(d, COMMA) then ParseItems(d[1..], depth, out + [v.value.0])
      else if StartsWith(d, CLOSE_BRACKET) then Some((Arr(out + [v.value.0]), d[1..]))
      else None
  }

  /** One value and nothing after it but space. */
  function Parse(t: Text): Option<Json> {
    var v := ParseValue(t, 0);
    if v.None? || SkipSpace(v.value.1) != [] then None else Some(v.value.0)
  }

  // ---- printing and reading undo each other ----

  /** The first code unit of a printed value: never space, never a closing bracket. */
  lemma Opens(value: Json)
    ensures var t := Jcs(value);
            |t| > 0 && !IsSpace(t[0]) && t[0] != CLOSE_BRACKET
  {
    if value.Number? {
      var n := value.n;
      DigitsRead(if n < 0 then -n else n);
    }
  }

  lemma NoSpace(t: Text)
    requires |t| > 0 ==> !IsSpace(t[0])
    ensures SkipSpace(t) == t
  {
  }

  /** A printed scalar reads back. */
  lemma ScalarRoundTrip(value: Json, rest: Text, depth: nat)
    requires Printable(value, depth) && Delimited(rest) && !value.Arr? && !value.Obj?
    ensures ParseValue(Jcs(value) + rest, depth) == Some((value, rest))
  {
    var t := Jcs(value) + rest;
    Opens(value);
    NoSpace(t);
    match value
    case Null =>
      assert t[..4] == NULL_WORD && t[4..] == rest;
    case Bool(b) =>
      if b {
        assert t[..4] == TRUE_WORD && t[4..] == rest;
      } else {
        assert t[..5] == FALSE_WORD && t[5..] == rest;
      }
    case Number(n) =>
      DigitsRead(if n < 0 then -n else n);
      NumberRoundTrip(n, rest);
    case Str(s) =>
      StringRoundTrip(s, rest);
  }

  lemma {:induction false} ValueRoundTrip(value: Json, rest: Text, depth: nat)
    requires Printable(value, depth) && Delimited(rest)
    ensures ParseValue(Jcs(value) + rest, depth) == Some((value, rest))
    decreases value, 2
  {
    match value
    case Arr(items) => ArrayRoundTrip(items, rest, depth);
    case Obj(_) => ObjectRoundTrip(value, rest, depth);
    case _ => ScalarRoundTrip(value, rest, depth);
  }

  lemma {:induction false} ArrayRoundTrip(items: seq<Json>, rest: Text, depth: nat)
    requires depth <= MAX_DEPTH && forall i | 0 <= i < |items| :: Printable(items[i], depth + 1)
    ensures ParseValue(Jcs(Arr(items)) + rest, depth) == Some((Arr(items), rest))
    decreases items, 2
  {
    hide Jcs, JcsItems, ParseItems;
    var inner := JcsItems(items) + [CLOSE_BRACKET] + rest;
    ArrayText(items, rest);
    var t := Jcs(Arr(items)) + rest;
    NoSpace(t);
    assert t[1..] == inner;
    if |items| == 0 {
      assert inner == [CLOSE_BRACKET] + rest;
      NoSpace(inner);
      assert inner[1..] == rest;
    } else {
      ItemsOpen(items, [CLOSE_BRACKET] + rest);
      assert inner == JcsItems(items) + ([CLOSE_BRACKET] + rest);
      NoSpace(inner);
      ItemsRoundTrip(items, rest, depth, []);
      assert [] + items == items;
    }
  }

  lemma ArrayText(items: seq<Json>, rest: Text)
    ensures Jcs(Arr(items)) + rest == [OPEN_BRACKET] + (JcsItems(items) + [CLOSE_BRACKET] + rest)
    ensures |items| == 0 ==> JcsItems(items) == []
  {
    Bracketed([OPEN_BRACKET], JcsItems(items), [CLOSE_BRACKET], rest);
  }

  lemma Bracketed(open: Text, inner: Text, close: Text, rest: Text)
    ensures open + inner + close + rest == open + (inner + close + rest)
  {
  }

  lemma ItemsOpen(items: seq<Json>, rest: Text)
    requires |items| > 0
    ensures var t := JcsItems(items) + rest; |t| > 0 && !IsSpace(t[0]) && t[0] != CLOSE_BRACKET
  {
    Opens(items[0]);
  }

  /** The text of a list of items, cut after its first. */
  lemma ItemsText(items: seq<Json>, rest: Text)
    requires |items| > 0
    ensures JcsItems(items) + [CLOSE_BRACKET] + rest
         == Jcs(items[0]) + if |items| == 1 then [CLOSE_BRACKET] + rest else [COMMA] + (JcsItems(items[1..]) + [CLOSE_BRACKET] + rest)
  {
    var first, others := Jcs(items[0]), if |items| == 1 then [] else JcsItems(items[1..]);
    assert JcsItems(items) == first + if |items| == 1 then [] else [COMMA] + others;
    hide Jcs, JcsItems;
    Rejoined(first, [COMMA], others, [CLOSE_BRACKET], rest);
  }

  lemma Rejoined(a: Text, b: Text, c: Text, d: Text, e: Text)
    ensures a + (b + c) + d + e == a + (b + (c + d + e))
    ensures a + [] + d + e == a + (d + e)
  {
  }

  lemma {:induction false} ItemsRoundTrip(items: seq<Json>, rest: Text, depth: nat, out: seq<Json>)
    requires |items| > 0 && forall i | 0 <= i < |items| :: Printable(items[i], depth + 1)
    ensures ParseItems(JcsItems(items) + [CLOSE_BRACKET] + rest, depth, out) == Some((Arr(out + items), rest))
    decreases items, 1
  {
    hide Jcs, JcsItems, ParseValue;
    var more := if |items| == 1 then [CLOSE_BRACKET] + rest else [COMMA] + (JcsItems(items[1..]) + [CLOSE_BRACKET] + rest);
    ItemsText(items, rest);
    ValueRoundTrip(items[0], more, depth + 1);
    NoSpace(more);
    if |items| == 1 {
      assert more[1..] == rest;
      assert out + items == out + [items[0]];
    } else {
      assert more[1..] == JcsItems(items[1..]) + [CLOSE_BRACKET] + rest;
      ItemsRoundTrip(items[1..], rest, depth, out + [items[0]]);
      assert out + [items[0]] + items[1..] == out + items;
    }
  }

  /** The members of `whole` named in `names`. */
  function Chosen(whole: Json, names: seq<Text>): map<Text, Json>
    requires whole.Obj? && forall name | name in names :: name in whole.members
  {
    map name | name in names :: whole.members[name]
  }

  lemma {:induction false} ObjectRoundTrip(value: Json, rest: Text, depth: nat)
    requires Printable(value, depth) && value.Obj?
    ensures ParseValue(Jcs(value) + rest, depth) == Some((value, rest))
    decreases value, 1
  {
    hide Jcs, JcsMembers, ParseMembers, InOrder;
    var names := InOrder(value.members.Keys);
    assert forall name | name in names :: name in NamesIn(names);
    assert forall name | name in value.members :: name in NamesIn(names);
    InOrderOrdered(value.members.Keys);
    var inner := JcsMembers(value, names) + [CLOSE_BRACE] + rest;
    ObjectText(value, rest);
    var t := Jcs(value) + rest;
    NoSpace(t);
    assert t[1..] == inner;
    if |names| == 0 {
      assert value.members == map[];
      assert inner == [CLOSE_BRACE] + rest;
      NoSpace(inner);
      assert inner[1..] == rest;
    } else {
      MembersOpen(value, names, [CLOSE_BRACE] + rest);
      assert inner == JcsMembers(value, names) + ([CLOSE_BRACE] + rest);
      NoSpace(inner);
      MembersRoundTrip(value, names, rest, depth, map[]);
      assert map[] + Chosen(value, names) == value.members;
    }
  }

  lemma ObjectText(value: Json, rest: Text)
    requires value.Obj?
    ensures forall name | name in InOrder(value.members.Keys) :: name in value.members
    ensures Jcs(value) + rest == [OPEN_BRACE] + (JcsMembers(value, InOrder(value.members.Keys)) + [CLOSE_BRACE] + rest)
    ensures |InOrder(value.members.Keys)| == 0 ==> JcsMembers(value, InOrder(value.members.Keys)) == []
  {
    var names := InOrder(value.members.Keys);
    assert forall name | name in names :: name in NamesIn(names);
  }

  lemma MembersOpen(whole: Json, names: seq<Text>, rest: Text)
    requires whole.Obj? && (forall name | name in names :: name in whole.members) && |names| > 0
    ensures StartsWith(JcsMembers(whole, names) + rest, QUOTE)
  {
  }

  /** The text of a list of members, cut at the colon and after the first value. */
  lemma MembersText(whole: Json, names: seq<Text>, rest: Text)
    requires whole.Obj? && (forall name | name in names :: name in whole.members) && |names| > 0
    ensures JcsMembers(whole, names) + [CLOSE_BRACE] + rest
         == Quoted(names[0]) + ([COLON] + (Jcs(whole.members[names[0]]) + AfterMember(whole, names, rest)))
  {
    hide Jcs, JcsMembers, Quoted, AfterMember;
    MembersHead(whole, names);
    AfterOthers(whole, names, rest);
    var front := Quoted(names[0]) + [COLON] + Jcs(whole.members[names[0]]);
    Regroup(front, OtherMembers(whole, names), [CLOSE_BRACE], rest);
    Regroup(Quoted(names[0]), [COLON], Jcs(whole.members[names[0]]), AfterMember(whole, names, rest));
  }

  /** The members after the first, each behind its comma. */
  function OtherMembers(whole: Json, names: seq<Text>): Text
    requires whole.Obj? && (forall name | name in names :: name in whole.members) && |names| > 0
  {
    if |names| == 1 then [] else [COMMA] + JcsMembers(whole, names[1..])
  }

  lemma MembersHead(whole: Json, names: seq<Text>)
    requires whole.Obj? && (forall name | name in names :: name in whole.members) && |names| > 0
    ensures JcsMembers(whole, names) == Quoted(names[0]) + [COLON] + Jcs(whole.members[names[0]]) + OtherMembers(whole, names)
  {
    hide Quoted, Jcs;
  }

  lemma AfterOthers(whole: Json, names: seq<Text>, rest: Text)
    requires whole.Obj? && (forall name | name in names :: name in whole.members) && |names| > 0
    ensures AfterMember(whole, names, rest) == OtherMembers(whole, names) + ([CLOSE_BRACE] + rest)
  {
    hide JcsMembers;
    if |names| == 1 {
      assert [] + ([CLOSE_BRACE] + rest) == [CLOSE_BRACE] + rest;
    } else {
      Regroup2([COMMA], JcsMembers(whole, names[1..]), [CLOSE_BRACE], rest);
    }
  }

  lemma Regroup2(a: Text, b: Text, c: Text, rest: Text)
    ensures a + (b + c + rest) == a + b + (c + rest)
  {
  }

  lemma Regroup(a: Text, b: Text, c: Text, rest: Text)
    ensures a + b + c + rest == a + (b + (c + rest))
  {
  }

  /** What follows the value of the first of `names`. */
  function AfterMember(whole: Json, names: seq<Text>, rest: Text): Text
    requires whole.Obj? && (forall name | name in names :: name in whole.members) && |names| > 0
  {
    if |names| == 1 then [CLOSE_BRACE] + rest else [COMMA] + (JcsMembers(whole, names[1..]) + [CLOSE_BRACE] + rest)
  }

  lemma {:induction false} MembersRoundTrip(whole: Json, names: seq<Text>, rest: Text, depth: nat, out: map<Text, Json>)
    requires whole.Obj? && (forall name | name in names :: name in whole.members) && |names| > 0 && Ordered(names)
    requires forall name | name in names :: name !in out && Printable(whole.members[name], depth + 1)
    ensures ParseMembers(JcsMembers(whole, names) + [CLOSE_BRACE] + rest, depth, out) == Some((Obj(out + Chosen(whole, names)), rest))
    decreases whole, 0, |names|
  {
    hide Jcs, JcsMembers, ParseValue, ParseString, Quoted, Printable, Precedes, Chosen;
    var name := names[0];
    var value := whole.members[name];
    var more := AfterMember(whole, names, rest);
    MembersText(whole, names, rest);
    OthersFollow(names);
    ValueRoundTrip(value, more, depth + 1);
    MemberStep(name, value, more, depth, out);
    NoSpace(more);
    if |names| == 1 {
      assert more[1..] == rest;
      ChosenCons(whole, names, out);
    } else {
      assert more[1..] == JcsMembers(whole, names[1..]) + [CLOSE_BRACE] + rest;
      MembersRoundTrip(whole, names[1..], rest, depth, out[name := value]);
      ChosenCons(whole, names, out);
    }
  }

  lemma ChosenCons(whole: Json, names: seq<Text>, out: map<Text, Json>)
    requires whole.Obj? && (forall name | name in names :: name in whole.members) && |names| > 0
    requires names[0] !in names[1..]
    ensures out[names[0] := whole.members[names[0]]] + Chosen(whole, names[1..]) == out + Chosen(whole, names)
    ensures |names| == 1 ==> out[names[0] := whole.members[names[0]]] == out + Chosen(whole, names)
  {
    assert names == [names[0]] + names[1..];
  }

  /** One member read: what is left is the separator and what follows it. */
  lemma MemberStep(name: Text, value: Json, more: Text, depth: nat, out: map<Text, Json>)
    requires name !in out && ParseValue(Jcs(value) + more, depth + 1) == Some((value, more)) && |more| > 0 && !IsSpace(more[0])
    ensures ParseMembers(Quoted(name) + ([COLON] + (Jcs(value) + more)), depth, out)
         == if more[0] == COMMA then ParseMembers(more[1..], depth, out[name := value])
            else if more[0] == CLOSE_BRACE then Some((Obj(out[name := value]), more[1..])) else None
  {
    hide Jcs, ParseValue, ParseString, Quoted;
    var afterName := [COLON] + (Jcs(value) + more);
    StringRoundTrip(name, afterName);
    NoSpace(Quoted(name) + afterName);
    NoSpace(afterName);
    assert afterName[1..] == Jcs(value) + more;
    NoSpace(more);
  }

  /** In an ordered list no name comes twice. */
  lemma OthersFollow(names: seq<Text>)
    requires |names| > 0 && Ordered(names)
    ensures Ordered(names[1..]) && names[0] !in names[1..]
    ensures forall name | name in names[1..] :: name in names
    ensures forall name | name in names :: name == names[0] || name in names[1..]
  {
    if names[0] in names[1..] {
      var i :| 0 <= i < |names| - 1 && names[1..][i] == names[0];
      OrderTotal(names[0], names[i + 1]);
    }
    assert names == [names[0]] + names[1..];
  }

  // ---- what the reader accepts ----

  /** Every value read can be printed back: its integers are safe and it is no deeper than the limit. */
  lemma {:induction false} ReadIsPrintable(t: Text, depth: nat)
    ensures ParseValue(t, depth).Some? ==> Printable(ParseValue(t, depth).value.0, depth)
    decreases |t|, 1
  {
    if depth <= MAX_DEPTH {
      var u := SkipSpace(t);
      if StartsWith(u, OPEN_BRACE) {
        MembersPrintable(SkipSpace(u[1..]), depth, map[]);
      } else if StartsWith(u, OPEN_BRACKET) {
        ItemsPrintable(SkipSpace(u[1..]), depth, []);
      }
    }
  }

  lemma {:induction false} MembersPrintable(t: Text, depth: nat, out: map<Text, Json>)
    requires depth <= MAX_DEPTH && forall name | name in out :: Printable(out[name], depth + 1)
    ensures ParseMembers(t, depth, out).Some? ==> Printable(ParseMembers(t, depth, out).value.0, depth)
    decreases |t|, 0
  {
    hide ParseString, ParseValue;
    var u := SkipSpace(t);
    if StartsWith(u, QUOTE) && ParseString(u).Some? {
      var (name, rest) := ParseString(u).value;
      var c := SkipSpace(rest);
      if name !in out && StartsWith(c, COLON) {
        ReadIsPrintable(c[1..], depth + 1);
        var v := ParseValue(c[1..], depth + 1);
        if v.Some? {
          var d := SkipSpace(v.value.1);
          if StartsWith(d, COMMA) {
            MembersPrintable(d[1..], depth, out[name := v.value.0]);
          }
        }
      }
    }
  }

  lemma {:induction false} ItemsPrintable(t: Text, depth: nat, out: seq<Json>)
    requires depth <= MAX_DEPTH && forall i | 0 <= i < |out| :: Printable(out[i], depth + 1)
    ensures ParseItems(t, depth, out).Some? ==> Printable(ParseItems(t, depth, out).value.0, depth)
    decreases |t|, 2
  {
    hide ParseValue;
    ReadIsPrintable(t, depth + 1);
    var v := ParseValue(t, depth + 1);
    if v.Some? {
      var d := SkipSpace(v.value.1);
      if StartsWith(d, COMMA) {
        ItemsPrintable(d[1..], depth, out + [v.value.0]);
      }
    }
  }

  // ---- the printed text has a UTF-8 form ----

  lemma {:induction false} DigitsPlain(n: nat)
    ensures WellFormed(Digits(n))
  {
    DigitsRead(n);
    PlainIsWellFormed(Digits(n));
  }

  lemma {:induction false} EscapedWellFormed(s: Text)
    ensures WellFormed(Escaped(s))
  {
    if |s| > 0 {
      if IsPair(s) {
        EscapedWellFormed(s[2..]);
        var t := Escaped(s);
        assert t[2..] == Escaped(s[2..]);
      } else {
        EscapedWellFormed(s[1..]);
        PlainIsWellFormed(EscapeOne(s[0]));
        WellFormedAppend(EscapeOne(s[0]), Escaped(s[1..]));
      }
    }
  }

  lemma Surrounded(open: CodeUnit, t: Text, close: CodeUnit)
    requires WellFormed(t) && !IsHigh(open) && !IsLow(open) && !IsHigh(close) && !IsLow(close)
    ensures WellFormed([open] + t + [close])
  {
    PlainIsWellFormed([open]);
    PlainIsWellFormed([close]);
    WellFormedAppend([open], t);
    WellFormedAppend([open] + t, [close]);
  }

  lemma {:induction false} JcsWellFormed(value: Json)
    ensures WellFormed(Jcs(value))
    decreases value, 2
  {
    match value
    case Null => PlainIsWellFormed(NULL_WORD);
    case Bool(b) =>
      PlainIsWellFormed(TRUE_WORD);
      PlainIsWellFormed(FALSE_WORD);
    case Number(n) =>
      DigitsPlain(if n < 0 then -n else n);
      PlainIsWellFormed([MINUS]);
      WellFormedAppend([MINUS], Digits(if n < 0 then -n else n));
    case Str(s) =>
      EscapedWellFormed(s);
      Surrounded(QUOTE, Escaped(s), QUOTE);
    case Arr(items) =>
      ItemsWellFormed(items);
      Surrounded(OPEN_BRACKET, JcsItems(items), CLOSE_BRACKET);
    case Obj(members) =>
      assert forall name | name in InOrder(members.Keys) :: name in NamesIn(InOrder(members.Keys));
      MembersWellFormed(value, InOrder(members.Keys));
      Surrounded(OPEN_BRACE, JcsMembers(value, InOrder(members.Keys)), CLOSE_BRACE);
  }

  lemma {:induction false} ItemsWellFormed(items: seq<Json>)
    ensures WellFormed(JcsItems(items))
    decreases items, 1
  {
    hide WellFormed;
    if |items| == 0 {
      PlainIsWellFormed([]);
    } else {
      JcsWellFormed(items[0]);
      if |items| > 1 {
        ItemsWellFormed(items[1..]);
        PlainIsWellFormed([COMMA]);
        WellFormedAppend([COMMA], JcsItems(items[1..]));
      } else {
        PlainIsWellFormed([]);
      }
      WellFormedAppend(Jcs(items[0]), if |items| == 1 then [] else [COMMA] + JcsItems(items[1..]));
    }
  }

  lemma {:induction false} MembersWellFormed(whole: Json, names: seq<Text>)
    requires whole.Obj? && forall name | name in names :: name in whole.members
    ensures WellFormed(JcsMembers(whole, names))
    decreases whole, 1, |names|
  {
    hide WellFormed;
    if |names| == 0 {
      PlainIsWellFormed([]);
    } else {
      var name := names[0];
      var more := if |names| == 1 then [] else [COMMA] + JcsMembers(whole, names[1..]);
      if |names| > 1 {
        MembersWellFormed(whole, names[1..]);
        PlainIsWellFormed([COMMA]);
        WellFormedAppend([COMMA], JcsMembers(whole, names[1..]));
      } else {
        PlainIsWellFormed([]);
      }
      JcsWellFormed(whole.members[name]);
      EscapedWellFormed(name);
      Surrounded(QUOTE, Escaped(name), QUOTE);
      PlainIsWellFormed([COLON]);
      WellFormedAppend(Quoted(name), [COLON]);
      WellFormedAppend(Quoted(name) + [COLON], Jcs(whole.members[name]));
      WellFormedAppend(Quoted(name) + [COLON] + Jcs(whole.members[name]), more);
    }
  }

  // ---- bytes ----

  const BYTE_ORDER_MARK: Buffer := [0xef, 0xbb, 0xbf]

  /** What `parseProofJson` answers; none where it throws. */
  function ParseProof(bytes: Buffer): Option<Json> {
    if |bytes| >= 3 && bytes[..3] == BYTE_ORDER_MARK then None
    else
      var text := Decode(bytes);
      if text.None? then None else Parse(text.value)
  }

  function JcsBytes(value: Json): Buffer {
    Encode(Jcs(value))
  }

  /** A canonical text starts with an ASCII character, so never with a byte-order mark. */
  lemma NoMark(value: Json)
    ensures |JcsBytes(value)| > 0 && JcsBytes(value)[0] < 0x80
  {
    var t := Jcs(value);
    if value.Number? {
      DigitsRead(if value.n < 0 then -value.n else value.n);
    }
    assert |t| > 0 && t[0] < 0x80;
  }

  /** Reading what was printed gives the value back, for every value the reader can return. */
  lemma PrintedReadsBack(value: Json)
    requires Printable(value, 0)
    ensures ParseProof(JcsBytes(value)) == Some(value)
  {
    NoMark(value);
    hide Jcs, ParseValue, Encode, Decode, WellFormed, Printable;
    JcsWellFormed(value);
    Utf8RoundTrip(Jcs(value));
    ValueRoundTrip(value, [], 0);
    assert Jcs(value) + [] == Jcs(value);
  }

  /** `sameProof`: two payloads whose canonical forms are equal. */
  predicate SameProof(a: Buffer, b: Buffer) {
    ParseProof(a).Some? && ParseProof(b).Some? && JcsBytes(ParseProof(a).value) == JcsBytes(ParseProof(b).value)
  }

  /**
   Two payloads are the same proof exactly when both are well formed and denote one
   value: member order, spacing and spelling of escapes apart, nothing else.
   */
  lemma SameProofExact(a: Buffer, b: Buffer)
    ensures SameProof(a, b) <==> ParseProof(a).Some? && ParseProof(a) == ParseProof(b)
  {
    if SameProof(a, b) {
      ReadIsPrintable(Decode(a).value, 0);
      ReadIsPrintable(Decode(b).value, 0);
      PrintedReadsBack(ParseProof(a).value);
      PrintedReadsBack(ParseProof(b).value);
    }
  }
}

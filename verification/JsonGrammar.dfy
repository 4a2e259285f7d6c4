/**
 What the proof reader accepts (tools/src/json.ts), as a grammar: a text is read as a value
 exactly when it is written by one of these trees, with any spacing, any spelling of the
 strings and any order of members, and the tree denotes that value.
 */
module JsonGrammar {
  import opened ByteStrings
  import opened Texts
  import opened Json

  // ---- concrete syntax ----

  /** One code unit of a string literal: as it is, by a letter, or by four hexadecimal digits. */
  datatype Unit = Plain(u: CodeUnit) | Letter(letter: CodeUnit) | Hex(digits: Text)

  datatype Tree =
    | Word(value: Json)
    | Num(negative: bool, digits: Text)
    | String(units: seq<Unit>)
    | Array(gap: Text, items: seq<Spaced>)
    | Object(gap: Text, members: seq<Member>)

  /** A value with the space around it. */
  datatype Spaced = Spaced(before: Text, tree: Tree, after: Text)

  datatype Member = Member(beforeName: Text, name: seq<Unit>, afterName: Text, value: Spaced)

  predicate Spaces(t: Text) {
    forall i | 0 <= i < |t| :: t[i] == 0x20 || t[i] == 0x09 || t[i] == 0x0a || t[i] == 0x0d
  }

  /** What a letter behind a backslash stands for. */
  function LetterValue(letter: CodeUnit): CodeUnit {
    match letter
    case 0x62 => 0x08
    case 0x66 => 0x0c
    case 0x6e => 0x0a
    case 0x72 => 0x0d
    case 0x74 => 0x09
    case _ => letter
  }

  predicate IsHex(u: CodeUnit) {
    0x30 <= u <= 0x39 || 0x41 <= u <= 0x46 || 0x61 <= u <= 0x66
  }

  function HexValue(u: CodeUnit): (v: nat)
    requires IsHex(u)
    ensures v < 16
  {
    if u <= 0x39 then u - 0x30 else if u <= 0x46 then u - 0x41 + 10 else u - 0x61 + 10
  }

  predicate UnitValid(p: Unit) {
    match p
    case Plain(u) => u >= 0x20 && u != 0x22 && u != 0x5c
    case Letter(letter) => letter in {0x22, 0x5c, 0x2f, 0x62, 0x66, 0x6e, 0x72, 0x74}
    case Hex(d) => |d| == 4 && IsHex(d[0]) && IsHex(d[1]) && IsHex(d[2]) && IsHex(d[3])
  }

  function UnitText(p: Unit): Text {
    match p
    case Plain(u) => [u]
    case Letter(letter) => [0x5c, letter]
    case Hex(d) => [0x5c, 0x75] + d
  }

  function UnitValue(p: Unit): CodeUnit
    requires UnitValid(p)
  {
    match p
    case Plain(u) => u
    case Letter(letter) => LetterValue(letter)
    case Hex(d) => HexValue(d[0]) * 0x1000 + HexValue(d[1]) * 0x100 + HexValue(d[2]) * 0x10 + HexValue(d[3])
  }

  predicate UnitsValid(units: seq<Unit>) {
    forall i | 0 <= i < |units| :: UnitValid(units[i])
  }

  function BodyText(units: seq<Unit>): Text {
    if |units| == 0 then [] else UnitText(units[0]) + BodyText(units[1..])
  }

  function StringText(units: seq<Unit>): Text {
    [0x22] + BodyText(units) + [0x22]
  }

  function StringValue(units: seq<Unit>): (s: Text)
    requires UnitsValid(units)
    ensures |s| == |units|
  {
    seq(|units|, i requires 0 <= i < |units| => UnitValue(units[i]))
  }

  // ---- strings, read ----

  lemma UnitReads(p: Unit, rest: Text)
    requires UnitValid(p)
    ensures Unescaped(UnitText(p) + rest) == PrependUnit(UnitValue(p), Unescaped(rest))
  {
    var t := UnitText(p) + rest;
    match p
    case Plain(u) => assert t[1..] == rest;
    case Letter(_) => assert t[2..] == rest;
    case Hex(d) =>
      assert t[2..6] == d && t[6..] == rest;
      HexReads(d);
      hide ReadHex;
  }

  lemma HexReads(d: Text)
    requires UnitValid(Hex(d))
    ensures ReadHex(d) == Some(UnitValue(Hex(d)))
  {
  }

  lemma {:induction false} BodyReads(units: seq<Unit>)
    requires UnitsValid(units)
    ensures Unescaped(BodyText(units)) == Some(StringValue(units))
  {
    if |units| > 0 {
      BodyReads(units[1..]);
      UnitReads(units[0], BodyText(units[1..]));
      assert StringValue(units) == [UnitValue(units[0])] + StringValue(units[1..]);
    }
  }

  /** The scan for the closing quote passes over one unit. */
  lemma ScanUnit(t: Text, at: nat, p: Unit, more: Text)
    requires UnitValid(p) && at <= |t| && t[at..] == UnitText(p) + more
    ensures at + |UnitText(p)| <= |t| && t[at + |UnitText(p)|..] == more
    ensures ClosingQuote(t, at) == ClosingQuote(t, at + |UnitText(p)|)
  {
    var piece := UnitText(p);
    Piece(t, at, piece, more);
    assert forall i | 0 <= i < |piece| :: t[at + i] == t[at..][i];
    if p.Hex? {
      ScanPlain(t, at + 2);
      ScanPlain(t, at + 3);
      ScanPlain(t, at + 4);
      ScanPlain(t, at + 5);
    }
  }

  lemma {:induction false} ScanBody(t: Text, at: nat, units: seq<Unit>, rest: Text)
    requires UnitsValid(units) && at <= |t| && t[at..] == BodyText(units) + ([0x22] + rest)
    ensures ClosingQuote(t, at) == at + |BodyText(units)|
    decreases |units|
  {
    if |units| == 0 {
      assert t[at..][0] == 0x22;
    } else {
      hide UnitText, ClosingQuote, UnitValid;
      var more := BodyText(units[1..]) + ([0x22] + rest);
      assert t[at..] == UnitText(units[0]) + more;
      ScanUnit(t, at, units[0], more);
      ScanBody(t, at + |UnitText(units[0])|, units[1..], rest);
    }
  }

  lemma StringReads(units: seq<Unit>, rest: Text)
    requires UnitsValid(units)
    ensures StartsWith(StringText(units) + rest, QUOTE)
    ensures ParseString(StringText(units) + rest) == Some((StringValue(units), rest))
  {
    var t := StringText(units) + rest;
    assert t[1..] == BodyText(units) + ([0x22] + rest);
    ScanBody(t, 1, units, rest);
    var end := 1 + |BodyText(units)|;
    assert t[1..end] == BodyText(units);
    assert t[end + 1..] == rest;
    BodyReads(units);
  }

  // ---- strings, back to their syntax ----

  /** The unit a body begins with. */
  lemma FirstUnit(body: Text) returns (first: Unit, n: nat)
    requires |body| > 0 && Unescaped(body).Some?
    ensures 0 < n <= |body| && UnitValid(first) && UnitText(first) == body[..n]
    ensures Unescaped(body) == PrependUnit(UnitValue(first), Unescaped(body[n..]))
  {
    if body[0] != BACKSLASH {
      first, n := Plain(body[0]), 1;
    } else if |body| >= 2 && ReadShortEscape(body[1]).Some? {
      first, n := Letter(body[1]), 2;
    } else {
      first, n := Hex(body[2..6]), 6;
      HexIsRead(body[2..6]);
    }
  }

  lemma HexIsRead(d: Text)
    requires |d| == 4 && ReadHex(d).Some?
    ensures UnitValid(Hex(d)) && ReadHex(d).value == UnitValue(Hex(d))
  {
  }

  lemma {:induction false} BodyWasWritten(body: Text) returns (units: seq<Unit>)
    requires Unescaped(body).Some?
    ensures UnitsValid(units) && BodyText(units) == body && StringValue(units) == Unescaped(body).value
  {
    units := [];
    if |body| > 0 {
      var first, n := FirstUnit(body);
      hide Unescaped, UnitText, UnitValid, UnitValue;
      var rest := BodyWasWritten(body[n..]);
      units := [first] + rest;
      assert units[1..] == rest && body == body[..n] + body[n..];
      assert StringValue(units) == [UnitValue(first)] + StringValue(rest);
    }
  }

  lemma StringWasWritten(t: Text) returns (units: seq<Unit>)
    requires StartsWith(t, QUOTE) && ParseString(t).Some?
    ensures UnitsValid(units) && StringValue(units) == ParseString(t).value.0 && t == StringText(units) + ParseString(t).value.1
  {
    var end := ClosingQuote(t, 1);
    ClosesAtQuote(t, 1);
    hide ClosingQuote, Unescaped, BodyText, StringValue, UnitsValid;
    units := BodyWasWritten(t[1..end]);
    Around(t, end);
  }

  lemma Around(t: Text, end: nat)
    requires 1 <= end < |t|
    ensures t == [t[0]] + t[1..end] + [t[end]] + t[end + 1..]
  {
  }

  lemma {:induction false} ClosesAtQuote(t: Text, at: nat)
    ensures ClosingQuote(t, at) < |t| ==> t[ClosingQuote(t, at)] == QUOTE
    decreases if at <= |t| then |t| - at else 0
  {
    if at < |t| && t[at] != QUOTE {
      ClosesAtQuote(t, if t[at] == BACKSLASH then at + 2 else at + 1);
    }
  }

  // ---- numbers ----

  predicate AllDigits(d: Text) {
    forall i | 0 <= i < |d| :: 0x30 <= d[i] <= 0x39
  }

  function DecimalValue(d: Text): nat
    requires AllDigits(d)
  {
    if |d| == 0 then 0
    else
      var last: int := d[|d| - 1];
      10 * DecimalValue(d[..|d| - 1]) + (last - 0x30)
  }

  /** Zero, or digits that do not begin with it. */
  predicate IsLiteral(d: Text) {
    |d| > 0 && AllDigits(d) && (d[0] == 0x30 ==> |d| == 1)
  }

  function NumValue(negative: bool, digits: Text): int
    requires AllDigits(digits)
  {
    var magnitude: int := DecimalValue(digits);
    if negative then -magnitude else magnitude
  }

  predicate NumValid(negative: bool, digits: Text) {
    IsLiteral(digits) && DecimalValue(digits) <= 9007199254740991
  }

  function NumText(negative: bool, digits: Text): Text {
    (if negative then [0x2d] else []) + digits
  }

  /** What follows continues no number literal: neither a digit, unless behind a lone zero, nor a fraction or an exponent. */
  predicate Ends(digits: Text, rest: Text) {
    && !MoreNumber(rest)
    && (digits != [0x30] && |rest| > 0 ==> !(0x30 <= rest[0] <= 0x39))
  }

  lemma {:induction false} DigitsAreRead(d: Text)
    requires AllDigits(d)
    ensures (forall i | 0 <= i < |d| :: IsDigit(d[i])) && ReadDigits(d) == DecimalValue(d)
  {
    if |d| > 0 {
      DigitsAreRead(d[..|d| - 1]);
    }
  }

  lemma LiteralRun(digits: Text, rest: Text)
    requires IsLiteral(digits) && Ends(digits, rest)
    ensures Unsigned(digits + rest) == |digits|
  {
    var t := digits + rest;
    assert t[0] == digits[0];
    if digits[0] != 0x30 {
      assert forall i | 0 <= i < |digits| :: IsDigit(digits[i]);
      RunOfDigits(digits, rest);
    }
  }

  lemma NumberReads(negative: bool, digits: Text, rest: Text)
    requires NumValid(negative, digits) && Ends(digits, rest)
    ensures var t := NumText(negative, digits) + rest; |t| > 0 && (t[0] == 0x2d || 0x30 <= t[0] <= 0x39) && ParseNumber(t) == Some((NumValue(negative, digits), rest))
  {
    hide Unsigned, MoreNumber, ReadDigits, DecimalValue, DigitRun;
    var t := NumText(negative, digits) + rest;
    var sign := if negative then 1 else 0;
    assert t[sign..] == digits + rest && (!negative ==> t[0] == digits[0]);
    LiteralRun(digits, rest);
    DigitsAreRead(digits);
    assert (digits + rest)[..|digits|] == digits;
    assert t[sign + |digits|..] == rest;
  }

  lemma NumberWasWritten(t: Text) returns (negative: bool, digits: Text)
    requires ParseNumber(t).Some?
    ensures NumValid(negative, digits) && t == NumText(negative, digits) + ParseNumber(t).value.1
    ensures ParseNumber(t).value.0 == NumValue(negative, digits) && Ends(digits, ParseNumber(t).value.1)
  {
    negative := StartsWith(t, MINUS);
    var sign := if negative then 1 else 0;
    var u := t[sign..];
    var n := Unsigned(u);
    digits := u[..n];
    assert AllDigits(digits);
    DigitsAreRead(digits);
    assert u == digits + u[n..] && t[sign + n..] == u[n..];
    assert n > 1 ==> digits[0] == u[0] != 0x30;
    hide MoreNumber, ReadDigits, DecimalValue;
  }

  // ---- values ----

  function WordText(value: Json): Text {
    match value
    case Null => [0x6e, 0x75, 0x6c, 0x6c]
    case Bool(b) => if b then [0x74, 0x72, 0x75, 0x65] else [0x66, 0x61, 0x6c, 0x73, 0x65]
    case _ => []
  }

  function TreeText(tree: Tree): Text
    decreases tree, 1
  {
    match tree
    case Word(value) => WordText(value)
    case Num(negative, digits) => NumText(negative, digits)
    case String(units) => StringText(units)
    case Array(gap, items) => [0x5b] + (if |items| == 0 then gap else ItemsText(items)) + [0x5d]
    case Object(gap, members) => [0x7b] + (if |members| == 0 then gap else MembersText(members)) + [0x7d]
  }

  function SpacedText(s: Spaced): Text
    decreases s, 0
  {
    s.before + TreeText(s.tree) + s.after
  }

  /** Items, a comma between. */
  function ItemsText(items: seq<Spaced>): Text
    decreases items, 0
  {
    if |items| == 0 then []
    else SpacedText(items[0]) + if |items| == 1 then [] else [0x2c] + ItemsText(items[1..])
  }

  function MemberText(m: Member): Text
    decreases m, 1
  {
    m.beforeName + StringText(m.name) + m.afterName + [0x3a] + SpacedText(m.value)
  }

  function MembersText(members: seq<Member>): Text
    decreases members, 0
  {
    if |members| == 0 then []
    else MemberText(members[0]) + if |members| == 1 then [] else [0x2c] + MembersText(members[1..])
  }

  /** Spelled as the format allows, no deeper than 64, integers safe and no name twice in an object. */
  predicate Valid(tree: Tree, depth: nat)
    decreases tree, 1
  {
    && depth <= 64
    && match tree
       case Word(value) => value.Null? || value.Bool?
       case Num(negative, digits) => NumValid(negative, digits)
       case String(units) => UnitsValid(units)
       case Array(gap, items) => Spaces(gap) && forall i | 0 <= i < |items| :: SpacedValid(items[i], depth + 1)
       case Object(gap, members) =>
         && Spaces(gap) && (forall i | 0 <= i < |members| :: MemberValid(members[i], depth + 1))
         && forall i, j | 0 <= i < j < |members| :: NameOf(members[i]) != NameOf(members[j])
  }

  predicate SpacedValid(s: Spaced, depth: nat)
    decreases s, 0
  {
    Spaces(s.before) && Spaces(s.after) && Valid(s.tree, depth)
  }

  predicate MemberValid(m: Member, depth: nat)
    decreases m, 1
  {
    Spaces(m.beforeName) && UnitsValid(m.name) && Spaces(m.afterName) && SpacedValid(m.value, depth)
  }

  function NameOf(m: Member): Text {
    if UnitsValid(m.name) then StringValue(m.name) else []
  }

  /** What a tree denotes. */
  function ValueOf(tree: Tree, depth: nat): Json
    requires Valid(tree, depth)
    decreases tree, 1
  {
    match tree
    case Word(value) => value
    case Num(negative, digits) => Number(NumValue(negative, digits))
    case String(units) => Str(StringValue(units))
    case Array(_, items) => Arr(seq(|items|, i requires 0 <= i < |items| => assert SpacedValid(items[i], depth + 1); ValueOf(items[i].tree, depth + 1)))
    case Object(_, members) => Obj(MembersValue(members, |members|, depth + 1))
  }

  /** The first `k` members by name. */
  function MembersValue(members: seq<Member>, k: nat, depth: nat): map<Text, Json>
    requires k <= |members| && forall i | 0 <= i < |members| :: MemberValid(members[i], depth)
    decreases members, 0, k
  {
    if k == 0 then map[]
    else
      var last := members[k - 1];
      assert MemberValid(last, depth) && SpacedValid(last.value, depth);
      MembersValue(members, k - 1, depth)[NameOf(last) := ValueOf(last.value.tree, depth)]
  }

  // ---- a tree's text is read as what it denotes ----

  lemma {:induction false} SkipSpaces(space: Text, t: Text)
    requires Spaces(space) && (|t| > 0 ==> !IsSpace(t[0]))
    ensures SkipSpace(space + t) == t
  {
    if |space| == 0 {
      assert space + t == t;
    } else {
      assert (space + t)[1..] == space[1..] + t;
      SkipSpaces(space[1..], t);
    }
  }

  /** What may follow a value: nothing, space, a comma or a closing bracket. */
  predicate Closed(rest: Text) {
    |rest| == 0 || IsSpace(rest[0]) || rest[0] in {0x2c, 0x5d, 0x7d}
  }

  lemma ClosedEnds(digits: Text, rest: Text)
    requires Closed(rest)
    ensures Ends(digits, rest)
  {
  }

  /** A tree's text begins with no space, and with no bracket that closes. */
  lemma TreeOpens(tree: Tree, depth: nat)
    requires Valid(tree, depth)
    ensures var t := TreeText(tree); |t| > 0 && !IsSpace(t[0]) && t[0] != 0x5d && t[0] != 0x7d
  {
    hide DecimalValue;
  }

  lemma LeafReads(tree: Tree, depth: nat, rest: Text)
    requires Valid(tree, depth) && !tree.Array? && !tree.Object? && (tree.Num? ==> Ends(tree.digits, rest))
    ensures ParseValue(TreeText(tree) + rest, depth) == Some((ValueOf(tree, depth), rest))
  {
    var t := TreeText(tree) + rest;
    TreeOpens(tree, depth);
    NoSpace(t);
    match tree
    case Word(value) =>
      var word := WordText(value);
      assert t[..|word|] == word && t[|word|..] == rest;
    case Num(negative, digits) =>
      NumberReads(negative, digits, rest);
    case String(units) =>
      StringReads(units, rest);
  }

  lemma SpaceBefore(space: Text, t: Text, depth: nat)
    requires Spaces(space) && (|t| > 0 ==> !IsSpace(t[0]))
    ensures ParseValue(space + t, depth) == ParseValue(t, depth)
  {
    SkipSpaces(space, t);
    NoSpace(t);
    hide ParseString, ParseNumber;
  }

  lemma {:induction false} TreeReads(tree: Tree, depth: nat, rest: Text)
    requires Valid(tree, depth) && (tree.Num? ==> Ends(tree.digits, rest))
    ensures ParseValue(TreeText(tree) + rest, depth) == Some((ValueOf(tree, depth), rest))
    decreases tree, 2
  {
    match tree
    case Array(gap, items) => ArrayReads(tree, depth, rest);
    case Object(gap, members) => ObjectReads(tree, depth, rest);
    case _ => LeafReads(tree, depth, rest);
  }

  /** A value with its spaces, before something that closes it. */
  lemma {:induction false} SpacedReads(s: Spaced, depth: nat, tail: Text)
    requires SpacedValid(s, depth) && |tail| > 0 && tail[0] in {0x2c, 0x5d, 0x7d}
    ensures ParseValue(SpacedText(s) + tail, depth) == Some((ValueOf(s.tree, depth), s.after + tail))
    ensures SkipSpace(s.after + tail) == tail
    decreases s, 3
  {
    hide TreeText, ParseValue, Valid, ValueOf;
    var rest := s.after + tail;
    assert rest[0] == if |s.after| > 0 then s.after[0] else tail[0];
    assert Closed(rest);
    if s.tree.Num? {
      ClosedEnds(s.tree.digits, rest);
    }
    TreeReads(s.tree, depth, rest);
    TreeOpens(s.tree, depth);
    SpaceBefore(s.before, TreeText(s.tree) + rest, depth);
    SkipSpaces(s.after, tail);
    assert SpacedText(s) + tail == s.before + (TreeText(s.tree) + rest);
  }

  function ItemValues(items: seq<Spaced>, depth: nat): seq<Json>
    requires forall i | 0 <= i < |items| :: SpacedValid(items[i], depth)
  {
    seq(|items|, i requires 0 <= i < |items| => assert SpacedValid(items[i], depth); ValueOf(items[i].tree, depth))
  }

  /** The items' text cut behind the first value. */
  lemma ItemsCut(items: seq<Spaced>, rest: Text)
    requires |items| > 0
    ensures ItemsText(items) + [0x5d] + rest
         == SpacedText(items[0]) + if |items| == 1 then [0x5d] + rest else [0x2c] + (ItemsText(items[1..]) + [0x5d] + rest)
  {
    hide SpacedText;
    var first, others := SpacedText(items[0]), if |items| == 1 then [] else ItemsText(items[1..]);
    assert ItemsText(items) == first + if |items| == 1 then [] else [0x2c] + others;
    hide ItemsText;
    Rejoined(first, [0x2c], others, [0x5d], rest);
  }

  lemma {:induction false} ItemsReads(items: seq<Spaced>, depth: nat, out: seq<Json>, rest: Text)
    requires |items| > 0 && forall i | 0 <= i < |items| :: SpacedValid(items[i], depth + 1)
    ensures ParseItems(ItemsText(items) + [0x5d] + rest, depth, out) == Some((Arr(out + ItemValues(items, depth + 1)), rest))
    decreases items, 1
  {
    hide SpacedText, ItemsText, ParseValue, SpacedValid, ValueOf;
    var tail := if |items| == 1 then [0x5d] + rest else [0x2c] + (ItemsText(items[1..]) + [0x5d] + rest);
    ItemsCut(items, rest);
    SpacedReads(items[0], depth + 1, tail);
    var first := ItemValues(items, depth + 1)[0];
    if |items| == 1 {
      assert tail[1..] == rest;
      assert ItemValues(items, depth + 1) == [first];
    } else {
      assert tail[1..] == ItemsText(items[1..]) + [0x5d] + rest;
      ItemsReads(items[1..], depth, out + [first], rest);
      assert ItemValues(items, depth + 1) == [first] + ItemValues(items[1..], depth + 1);
      assert out + [first] + ItemValues(items[1..], depth + 1) == out + ItemValues(items, depth + 1);
    }
  }

  lemma {:induction false} ArrayReads(tree: Tree, depth: nat, rest: Text)
    requires Valid(tree, depth) && tree.Array?
    ensures ParseValue(TreeText(tree) + rest, depth) == Some((ValueOf(tree, depth), rest))
    decreases tree, 1
  {
    var gap, items := tree.gap, tree.items;
    var inner := (if |items| == 0 then gap else ItemsText(items)) + [0x5d] + rest;
    ArrayIsBracketed(tree, rest);
    assert forall i | 0 <= i < |items| :: SpacedValid(items[i], depth + 1);
    ArrayValid(gap, items, depth);
    var t := [0x5b] + inner;
    NoSpace(t);
    assert t[1..] == inner;
    hide TreeText, Valid, ValueOf, ItemsText, ParseItems, SpacedValid, ItemValues;
    if |items| == 0 {
      assert inner == gap + ([0x5d] + rest);
      SkipSpaces(gap, [0x5d] + rest);
      assert ([0x5d] + rest)[1..] == rest;
    } else {
      ItemsOpen(items, depth + 1, [0x5d] + rest);
      assert inner == ItemsText(items) + ([0x5d] + rest);
      ItemsReads(items, depth, [], rest);
      SkippedItems(inner, depth, []);
      assert [] + ItemValues(items, depth + 1) == ItemValues(items, depth + 1);
    }
  }

  lemma ArrayIsBracketed(tree: Tree, rest: Text)
    requires tree.Array?
    ensures TreeText(tree) + rest == [0x5b] + ((if |tree.items| == 0 then tree.gap else ItemsText(tree.items)) + [0x5d] + rest)
  {
    hide ItemsText;
    Bracketed([0x5b], if |tree.items| == 0 then tree.gap else ItemsText(tree.items), [0x5d], rest);
  }

  lemma {:induction false} SkipTwice(t: Text)
    ensures SkipSpace(SkipSpace(t)) == SkipSpace(t)
  {
    NoSpace(SkipSpace(t));
  }

  lemma SkippedItems(t: Text, depth: nat, out: seq<Json>)
    ensures ParseItems(SkipSpace(t), depth, out) == ParseItems(t, depth, out)
  {
    SkipTwice(t);
    hide ParseString, ParseNumber;
    assert ParseValue(SkipSpace(t), depth + 1) == ParseValue(t, depth + 1);
  }

  /** A list of items begins with no closing bracket. */
  lemma ItemsOpen(items: seq<Spaced>, depth: nat, tail: Text)
    requires |items| > 0 && SpacedValid(items[0], depth)
    ensures !StartsWith(SkipSpace(ItemsText(items) + tail), CLOSE_BRACKET)
  {
    var first := items[0];
    TreeOpens(first.tree, depth);
    hide TreeText, Valid;
    var more := first.after + (if |items| == 1 then [] else [0x2c] + ItemsText(items[1..])) + tail;
    assert ItemsText(items) + tail == first.before + (TreeText(first.tree) + more);
    SkipSpaces(first.before, TreeText(first.tree) + more);
  }

  // ---- objects ----

  lemma SkippedMembers(t: Text, depth: nat, out: map<Text, Json>)
    ensures ParseMembers(SkipSpace(t), depth, out) == ParseMembers(t, depth, out)
  {
    SkipTwice(t);
    hide ParseString, ParseValue;
  }

  /** One member read, up to the separator behind it. */
  lemma MemberReads(m: Member, depth: nat, tail: Text, out: map<Text, Json>)
    requires MemberValid(m, depth + 1) && SpacedValid(m.value, depth + 1) && NameOf(m) !in out && |tail| > 0 && tail[0] in {0x2c, 0x5d, 0x7d}
    requires ParseValue(SpacedText(m.value) + tail, depth + 1) == Some((ValueOf(m.value.tree, depth + 1), m.value.after + tail))
    requires SkipSpace(m.value.after + tail) == tail
    ensures ParseMembers(MemberText(m) + tail, depth, out)
         == var more := out[NameOf(m) := ValueOf(m.value.tree, depth + 1)];
            if tail[0] == COMMA then ParseMembers(tail[1..], depth, more)
            else if tail[0] == CLOSE_BRACE then Some((Obj(more), tail[1..])) else None
  {
    hide SpacedText, ParseValue, ParseString, ValueOf, Valid, StringText;
    var afterColon := SpacedText(m.value) + tail;
    var afterName := m.afterName + ([0x3a] + afterColon);
    assert MemberText(m) + tail == m.beforeName + (StringText(m.name) + afterName);
    StringReads(m.name, afterName);
    SkipSpaces(m.beforeName, StringText(m.name) + afterName);
    SkipSpaces(m.afterName, [0x3a] + afterColon);
    assert ([0x3a] + afterColon)[1..] == afterColon;
  }

  lemma {:induction false} MembersNamed(members: seq<Member>, k: nat, depth: nat)
    requires k <= |members| && forall i | 0 <= i < |members| :: MemberValid(members[i], depth)
    ensures forall name :: name in MembersValue(members, k, depth) <==> exists i | 0 <= i < k :: NameOf(members[i]) == name
  {
    hide ValueOf, MemberValid, NameOf;
    if k > 0 {
      MembersNamed(members, k - 1, depth);
    }
  }

  lemma MembersCut(members: seq<Member>, rest: Text)
    requires |members| > 0
    ensures MembersText(members) + [0x7d] + rest
         == MemberText(members[0]) + if |members| == 1 then [0x7d] + rest else [0x2c] + (MembersText(members[1..]) + [0x7d] + rest)
  {
    hide MemberText;
    var first, others := MemberText(members[0]), if |members| == 1 then [] else MembersText(members[1..]);
    assert MembersText(members) == first + if |members| == 1 then [] else [0x2c] + others;
    hide MembersText;
    Rejoined(first, [0x2c], others, [0x7d], rest);
  }

  lemma {:induction false} MembersRead(members: seq<Member>, k: nat, depth: nat, rest: Text)
    requires k < |members| && forall i | 0 <= i < |members| :: MemberValid(members[i], depth + 1)
    requires forall i, j | 0 <= i < j < |members| :: NameOf(members[i]) != NameOf(members[j])
    ensures ParseMembers(MembersText(members[k..]) + [0x7d] + rest, depth, MembersValue(members, k, depth + 1))
         == Some((Obj(MembersValue(members, |members|, depth + 1)), rest))
    decreases members, 1, |members| - k
  {
    var m := members[k];
    assert MemberValid(m, depth + 1) && SpacedValid(m.value, depth + 1);
    MembersNamed(members, k, depth + 1);
    hide MemberText, MembersText, ParseValue, ValueOf, ParseMembers, SpacedValid, NameOf, SpacedText;
    var tail := if |members| == k + 1 then [0x7d] + rest else [0x2c] + (MembersText(members[k + 1..]) + [0x7d] + rest);
    MembersCut(members[k..], rest);
    assert members[k..][1..] == members[k + 1..];
    SpacedReads(m.value, depth + 1, tail);
    MemberReads(m, depth, tail, MembersValue(members, k, depth + 1));
    if |members| == k + 1 {
      assert tail[1..] == rest;
    } else {
      assert tail[1..] == MembersText(members[k + 1..]) + [0x7d] + rest;
      MembersRead(members, k + 1, depth, rest);
    }
  }

  lemma {:induction false} ObjectReads(tree: Tree, depth: nat, rest: Text)
    requires Valid(tree, depth) && tree.Object?
    ensures ParseValue(TreeText(tree) + rest, depth) == Some((ValueOf(tree, depth), rest))
    decreases tree, 1
  {
    var gap, members := tree.gap, tree.members;
    var inner := (if |members| == 0 then gap else MembersText(members)) + [0x7d] + rest;
    ObjectIsBraced(tree, rest);
    assert forall i | 0 <= i < |members| :: MemberValid(members[i], depth + 1);
    ObjectValid(gap, members, depth);
    var t := [0x7b] + inner;
    NoSpace(t);
    assert t[1..] == inner;
    hide TreeText, Valid, ValueOf, MembersText, ParseMembers, MemberValid, NameOf, MembersValue;
    if |members| == 0 {
      assert inner == gap + ([0x7d] + rest);
      SkipSpaces(gap, [0x7d] + rest);
      assert ([0x7d] + rest)[1..] == rest;
    } else {
      FilledObject(members, depth, rest);
    }
  }

  lemma {:induction false} FilledObject(members: seq<Member>, depth: nat, rest: Text)
    requires |members| > 0 && forall i | 0 <= i < |members| :: MemberValid(members[i], depth + 1)
    requires forall i, j | 0 <= i < j < |members| :: NameOf(members[i]) != NameOf(members[j])
    ensures var inner := MembersText(members) + [0x7d] + rest;
            && !StartsWith(SkipSpace(inner), CLOSE_BRACE)
            && ParseMembers(SkipSpace(inner), depth, map[]) == Some((Obj(MembersValue(members, |members|, depth + 1)), rest))
    decreases members, 2
  {
    assert MembersValue(members, 0, depth + 1) == map[];
    hide ParseMembers, MembersText, MemberValid, MembersValue, NameOf, SkipSpace;
    var inner := MembersText(members) + [0x7d] + rest;
    MembersBegin(members, depth + 1, [0x7d] + rest);
    assert inner == MembersText(members) + ([0x7d] + rest);
    assert members[0..] == members;
    MembersRead(members, 0, depth, rest);
    SkippedMembers(inner, depth, map[]);
  }

  lemma ObjectIsBraced(tree: Tree, rest: Text)
    requires tree.Object?
    ensures TreeText(tree) + rest == [0x7b] + ((if |tree.members| == 0 then tree.gap else MembersText(tree.members)) + [0x7d] + rest)
  {
    hide MembersText;
    Bracketed([0x7b], if |tree.members| == 0 then tree.gap else MembersText(tree.members), [0x7d], rest);
  }

  lemma MembersBegin(members: seq<Member>, depth: nat, tail: Text)
    requires |members| > 0 && MemberValid(members[0], depth)
    ensures !StartsWith(SkipSpace(MembersText(members) + tail), CLOSE_BRACE)
  {
    var m := members[0];
    var others := if |members| == 1 then [] else [0x2c] + MembersText(members[1..]);
    assert MembersText(members) == MemberText(m) + others;
    MemberTextIs(m);
    assert StringText(m.name)[0] == 0x22;
    hide MembersText, MemberText, SpacedText, SpacedValid, StringText;
    var more := m.afterName + [0x3a] + SpacedText(m.value) + others + tail;
    SevenParts(m.beforeName, StringText(m.name), m.afterName, [0x3a], SpacedText(m.value), others, tail);
    SkipSpaces(m.beforeName, StringText(m.name) + more);
  }

  lemma SevenParts(a: Text, b: Text, c: Text, d: Text, e: Text, f: Text, g: Text)
    ensures a + b + c + d + e + f + g == a + (b + (c + d + e + f + g))
  {
  }

  // ---- what is read was written so ----

  lemma {:induction false} Skipped(t: Text) returns (space: Text)
    ensures Spaces(space) && t == space + SkipSpace(t)
  {
    space := [];
    if |t| > 0 && IsSpace(t[0]) {
      space := Skipped(t[1..]);
      space := [t[0]] + space;
    }
  }

  lemma LeafWasWritten(u: Text, depth: nat) returns (tree: Tree)
    requires ParseValue(u, depth).Some? && SkipSpace(u) == u && !StartsWith(u, OPEN_BRACE) && !StartsWith(u, OPEN_BRACKET)
    ensures Valid(tree, depth) && ValueOf(tree, depth) == ParseValue(u, depth).value.0 && u == TreeText(tree) + ParseValue(u, depth).value.1
    ensures tree.Num? ==> Ends(tree.digits, ParseValue(u, depth).value.1)
  {
    var rest := ParseValue(u, depth).value.1;
    if StartsWith(u, QUOTE) {
      var units := StringWasWritten(u);
      tree := String(units);
    } else if StartsWith(u, MINUS) || (|u| > 0 && IsDigit(u[0])) {
      var negative, digits := NumberWasWritten(u);
      tree := Num(negative, digits);
    } else if BeginsWord(u, TRUE_WORD) {
      tree := Word(Bool(true));
      assert u == u[..4] + u[4..];
    } else if BeginsWord(u, FALSE_WORD) {
      tree := Word(Bool(false));
      assert u == u[..5] + u[5..];
    } else {
      tree := Word(Null);
      assert u == u[..4] + u[4..];
    }
  }

  lemma {:induction false} ValueWasWritten(t: Text, depth: nat) returns (space: Text, tree: Tree)
    requires ParseValue(t, depth).Some?
    ensures Spaces(space) && Valid(tree, depth) && ValueOf(tree, depth) == ParseValue(t, depth).value.0
    ensures t == space + TreeText(tree) + ParseValue(t, depth).value.1
    ensures tree.Num? ==> Ends(tree.digits, ParseValue(t, depth).value.1)
    decreases |t|, 1
  {
    space := Skipped(t);
    var u := SkipSpace(t);
    NoSpace(u);
    ReadsSkipped(t, depth);
    if StartsWith(u, OPEN_BRACE) {
      tree := ObjectWasWritten(u, depth);
    } else if StartsWith(u, OPEN_BRACKET) {
      tree := ArrayWasWritten(u, depth);
    } else {
      tree := LeafWasWritten(u, depth);
    }
    hide TreeText, ParseValue, Valid, ValueOf;
    var rest := ParseValue(t, depth).value.1;
    assert space + TreeText(tree) + rest == space + (TreeText(tree) + rest);
  }

  lemma ReadsSkipped(t: Text, depth: nat)
    ensures ParseValue(SkipSpace(t), depth) == ParseValue(t, depth)
  {
    NoSpace(SkipSpace(t));
    hide ParseString, ParseNumber;
  }

  lemma {:induction false} ArrayWasWritten(u: Text, depth: nat) returns (tree: Tree)
    requires ParseValue(u, depth).Some? && SkipSpace(u) == u && StartsWith(u, OPEN_BRACKET)
    ensures tree.Array? && Valid(tree, depth) && ValueOf(tree, depth) == ParseValue(u, depth).value.0 && u == TreeText(tree) + ParseValue(u, depth).value.1
    decreases |u|, 0
  {
    ArrayOpens(u, depth);
    assert u == [0x5b] + u[1..];
    hide ParseValue, ParseItems, TreeText, Valid, ValueOf, ItemsText, SkipSpace, SpacedValid;
    var rest := ParseValue(u, depth).value.1;
    var inner := SkipSpace(u[1..]);
    if StartsWith(inner, CLOSE_BRACKET) {
      var gap := Skipped(u[1..]);
      tree := Array(gap, []);
      ArrayValid(gap, [], depth);
      ArrayIsBracketed(tree, rest);
      assert inner == [0x5d] + inner[1..];
      assert gap + inner == gap + [0x5d] + rest;
    } else {
      SkippedItems(u[1..], depth, []);
      tree := FilledArrayWasWritten(u[1..], depth);
    }
  }

  lemma ArrayOpens(u: Text, depth: nat)
    requires ParseValue(u, depth).Some? && SkipSpace(u) == u && StartsWith(u, OPEN_BRACKET)
    ensures depth <= 64
    ensures var inner := SkipSpace(u[1..]);
            ParseValue(u, depth) == if StartsWith(inner, CLOSE_BRACKET) then Some((Arr([]), inner[1..])) else ParseItems(inner, depth, [])
  {
    hide ParseItems;
  }

  lemma {:induction false} FilledArrayWasWritten(t: Text, depth: nat) returns (tree: Tree)
    requires depth <= 64 && ParseItems(t, depth, []).Some?
    ensures tree.Array? && Valid(tree, depth) && ValueOf(tree, depth) == ParseItems(t, depth, []).value.0
    ensures [0x5b] + t == TreeText(tree) + ParseItems(t, depth, []).value.1
    decreases |t|, 3
  {
    hide ParseItems, ItemsText, TreeText, SpacedValid, Valid, ValueOf;
    var items := ItemsWereWritten(t, depth, []);
    tree := Array([], items);
    ArrayIsBracketed(tree, ParseItems(t, depth, []).value.1);
    ArrayValid([], items, depth);
    assert [] + ItemValues(items, depth + 1) == ItemValues(items, depth + 1);
  }

  lemma ArrayValid(gap: Text, items: seq<Spaced>, depth: nat)
    requires depth <= 64 && Spaces(gap) && forall i | 0 <= i < |items| :: SpacedValid(items[i], depth + 1)
    ensures Valid(Array(gap, items), depth) && ValueOf(Array(gap, items), depth) == Arr(ItemValues(items, depth + 1))
    ensures items == [] ==> ItemValues(items, depth + 1) == []
  {
    hide SpacedValid;
  }

  lemma {:induction false} ItemsWereWritten(t: Text, depth: nat, out: seq<Json>) returns (items: seq<Spaced>)
    requires ParseItems(t, depth, out).Some?
    ensures |items| > 0 && forall i | 0 <= i < |items| :: SpacedValid(items[i], depth + 1)
    ensures ParseItems(t, depth, out).value.0 == Arr(out + ItemValues(items, depth + 1))
    ensures t == ItemsText(items) + [0x5d] + ParseItems(t, depth, out).value.1
    decreases |t|, 2
  {
    hide ItemsText, TreeText, SpacedText, ValueOf, ParseValue, Valid;
    var space, tree := ValueWasWritten(t, depth + 1);
    var (value, left) := ParseValue(t, depth + 1).value;
    var after := Skipped(left);
    var d := SkipSpace(left);
    var first := Spaced(space, tree, after);
    assert SpacedValid(first, depth + 1);
    SpacedTextIs(first);
    assert t == SpacedText(first) + d by { FourParts(space, TreeText(tree), after, d); }
    if StartsWith(d, COMMA) {
      var rest := ItemsWereWritten(d[1..], depth, out + [value]);
      items := [first] + rest;
      assert items[1..] == rest;
      assert ItemValues(items, depth + 1) == [value] + ItemValues(rest, depth + 1);
      assert out + [value] + ItemValues(rest, depth + 1) == out + ItemValues(items, depth + 1);
      ItemsCut(items, ParseItems(t, depth, out).value.1);
      assert d == [0x2c] + d[1..];
    } else {
      items := [first];
      assert ItemValues(items, depth + 1) == [value];
      ItemsCut(items, d[1..]);
      assert d == [0x5d] + d[1..];
    }
  }

  lemma SpacedTextIs(s: Spaced)
    ensures SpacedText(s) == s.before + TreeText(s.tree) + s.after
  {
  }

  lemma FourParts(a: Text, b: Text, c: Text, d: Text)
    ensures a + b + (c + d) == a + b + c + d
  {
  }

  lemma {:induction false} ObjectWasWritten(u: Text, depth: nat) returns (tree: Tree)
    requires ParseValue(u, depth).Some? && SkipSpace(u) == u && StartsWith(u, OPEN_BRACE)
    ensures tree.Object? && Valid(tree, depth) && ValueOf(tree, depth) == ParseValue(u, depth).value.0 && u == TreeText(tree) + ParseValue(u, depth).value.1
    decreases |u|, 0
  {
    ObjectOpens(u, depth);
    assert u == [0x7b] + u[1..];
    hide ParseValue, ParseMembers, TreeText, Valid, ValueOf, MembersText, MembersValue, SkipSpace;
    var rest := ParseValue(u, depth).value.1;
    var inner := SkipSpace(u[1..]);
    if StartsWith(inner, CLOSE_BRACE) {
      var gap := Skipped(u[1..]);
      tree := Object(gap, []);
      ObjectValid(gap, [], depth);
      ObjectIsBraced(tree, rest);
      assert inner == [0x7d] + inner[1..];
      assert gap + inner == gap + [0x7d] + rest;
    } else {
      SkippedMembers(u[1..], depth, map[]);
      tree := FilledWasWritten(u[1..], depth);
    }
  }

  lemma ObjectOpens(u: Text, depth: nat)
    requires ParseValue(u, depth).Some? && SkipSpace(u) == u && StartsWith(u, OPEN_BRACE)
    ensures depth <= 64
    ensures var inner := SkipSpace(u[1..]);
            ParseValue(u, depth) == if StartsWith(inner, CLOSE_BRACE) then Some((Obj(map[]), inner[1..])) else ParseMembers(inner, depth, map[])
  {
    hide ParseMembers;
  }

  lemma ObjectValid(gap: Text, members: seq<Member>, depth: nat)
    requires depth <= 64 && Spaces(gap) && AllValid(members, depth + 1) && Distinct(members)
    ensures Valid(Object(gap, members), depth) && ValueOf(Object(gap, members), depth) == Obj(MembersValue(members, |members|, depth + 1))
    ensures members == [] ==> MembersValue(members, |members|, depth + 1) == map[]
  {
    hide MemberValid, NameOf;
  }

  lemma {:induction false} FilledWasWritten(t: Text, depth: nat) returns (tree: Tree)
    requires depth <= 64 && ParseMembers(t, depth, map[]).Some?
    ensures tree.Object? && Valid(tree, depth) && ValueOf(tree, depth) == ParseMembers(t, depth, map[]).value.0
    ensures [0x7b] + t == TreeText(tree) + ParseMembers(t, depth, map[]).value.1
    decreases |t|, 2
  {
    hide ParseMembers, MembersText, TreeText, MemberValid, NameOf, Valid, ValueOf;
    assert MembersValue([], 0, depth + 1) == map[];
    hide MembersValue;
    var members := MembersWereWritten(t, depth, []);
    tree := Object([], members);
    assert [] + members == members;
    ObjectValid([], members, depth);
    ObjectIsBraced(tree, ParseMembers(t, depth, map[]).value.1);
  }

  ghost predicate Distinct(members: seq<Member>) {
    forall i, j | 0 <= i < j < |members| :: NameOf(members[i]) != NameOf(members[j])
  }

  predicate AllValid(members: seq<Member>, depth: nat) {
    forall i | 0 <= i < |members| :: MemberValid(members[i], depth)
  }

  lemma {:induction false} MembersPrefix(members: seq<Member>, more: seq<Member>, k: nat, depth: nat)
    requires k <= |members| && AllValid(members + more, depth) && AllValid(members, depth)
    ensures MembersValue(members + more, k, depth) == MembersValue(members, k, depth)
  {
    hide ValueOf, MemberValid, NameOf;
    if k > 0 {
      MembersPrefix(members, more, k - 1, depth);
      assert (members + more)[k - 1] == members[k - 1];
    }
  }

  /** The member a text of members begins with, and what its separator is followed by. */
  lemma FirstMember(t: Text, depth: nat, out: map<Text, Json>) returns (m: Member, d: Text)
    requires ParseMembers(t, depth, out).Some?
    ensures MemberValid(m, depth + 1) && SpacedValid(m.value, depth + 1) && NameOf(m) !in out && |d| > 0 && |d| < |t| && t == MemberText(m) + d
    ensures var more := out[NameOf(m) := ValueOf(m.value.tree, depth + 1)];
            if d[0] == COMMA then ParseMembers(t, depth, out) == ParseMembers(d[1..], depth, more)
            else d[0] == CLOSE_BRACE && ParseMembers(t, depth, out) == Some((Obj(more), d[1..]))
    decreases |t|, 0, 0
  {
    hide TreeText, StringText, SpacedText, ValueOf, ParseValue, ParseString, Valid;
    var beforeName := Skipped(t);
    var u := SkipSpace(t);
    var name := StringWasWritten(u);
    var afterKey := ParseString(u).value.1;
    var afterName := Skipped(afterKey);
    var c := SkipSpace(afterKey);
    var space, tree := ValueWasWritten(c[1..], depth + 1);
    var left := ParseValue(c[1..], depth + 1).value.1;
    var after := Skipped(left);
    d := SkipSpace(left);
    m := Member(beforeName, name, afterName, Spaced(space, tree, after));
    assert SpacedValid(m.value, depth + 1);
    SpacedTextIs(m.value);
    assert c == [0x3a] + c[1..];
    FourParts(space, TreeText(tree), after, d);
    MemberTextIs(m);
    SixParts(beforeName, StringText(name), afterName, [0x3a], SpacedText(m.value), d);
  }

  lemma MemberTextIs(m: Member)
    ensures MemberText(m) == m.beforeName + StringText(m.name) + m.afterName + [0x3a] + SpacedText(m.value)
  {
  }

  lemma SixParts(a: Text, b: Text, c: Text, d: Text, e: Text, rest: Text)
    ensures a + (b + (c + (d + (e + rest)))) == a + b + c + d + e + rest
  {
  }

  lemma {:induction false} MembersWereWritten(t: Text, depth: nat, before: seq<Member>) returns (members: seq<Member>)
    requires AllValid(before, depth + 1) && Distinct(before)
    requires ParseMembers(t, depth, MembersValue(before, |before|, depth + 1)).Some?
    ensures |members| > 0 && AllValid(before + members, depth + 1) && Distinct(before + members)
    ensures var read := ParseMembers(t, depth, MembersValue(before, |before|, depth + 1)).value;
            && read.0 == Obj(MembersValue(before + members, |before + members|, depth + 1))
            && t == MembersText(members) + [0x7d] + read.1
    decreases |t|, 1
  {
    hide MembersText, MemberText, ValueOf, ParseValue, ParseMembers, MemberValid, NameOf, Valid;
    var out := MembersValue(before, |before|, depth + 1);
    var m, d := FirstMember(t, depth, out);
    MembersNamed(before, |before|, depth + 1);
    var now := before + [m];
    assert AllValid(now, depth + 1);
    MembersPrefix(before, [m], |before|, depth + 1);
    assert MembersValue(now, |now|, depth + 1) == out[NameOf(m) := ValueOf(m.value.tree, depth + 1)];
    if d[0] == COMMA {
      var rest := MembersWereWritten(d[1..], depth, now);
      members := [m] + rest;
      assert before + members == now + rest;
      assert members[1..] == rest;
      MembersCut(members, ParseMembers(t, depth, out).value.1);
      assert d == [0x2c] + d[1..];
    } else {
      members := [m];
      MembersCut(members, d[1..]);
      assert d == [0x7d] + d[1..];
    }
  }

  // ---- the whole reader ----

  /** The text is this tree's, with space around it, and the tree denotes the value. */
  ghost predicate Writes(t: Text, before: Text, tree: Tree, after: Text, value: Json) {
    Spaces(before) && Spaces(after) && Valid(tree, 0) && t == before + TreeText(tree) + after && ValueOf(tree, 0) == value
  }

  /** A text is read as a value exactly when some tree that denotes it writes the text. */
  lemma ParseExact(t: Text, value: Json)
    ensures Parse(t) == Some(value) <==> exists before, tree, after :: Writes(t, before, tree, after, value)
  {
    hide ParseValue, Valid, TreeText, ValueOf;
    if Parse(t) == Some(value) {
      var before, tree := ValueWasWritten(t, 0);
      var after := Skipped(ParseValue(t, 0).value.1);
      assert after + [] == after;
      assert Writes(t, before, tree, after, value);
    }
    if before, tree, after :| Writes(t, before, tree, after, value) {
      TreeIsRead(before, tree, after);
    }
  }

  lemma TreeIsRead(before: Text, tree: Tree, after: Text)
    requires Spaces(before) && Spaces(after) && Valid(tree, 0)
    ensures Parse(before + TreeText(tree) + after) == Some(ValueOf(tree, 0))
  {
    hide ParseValue, Valid, TreeText, ValueOf;
    assert Closed(after);
    if tree.Num? {
      ClosedEnds(tree.digits, after);
    }
    TreeReads(tree, 0, after);
    TreeOpens(tree, 0);
    SpaceBefore(before, TreeText(tree) + after, 0);
    assert before + (TreeText(tree) + after) == before + TreeText(tree) + after;
    SkipSpaces(after, []);
    assert after + [] == after;
  }

  /**
   Bytes are read as a proof's value exactly when they are the UTF-8 form of such a text
   and do not begin with a byte-order mark. No name stands twice in an object, no integer
   is unsafe and none is written with a fraction, an exponent or a leading zero.
   */
  lemma ProofExact(bytes: Buffer, value: Json)
    ensures ParseProof(bytes) == Some(value) <==>
            && !([0xef, 0xbb, 0xbf] <= bytes)
            && exists t, before, tree, after :: Texts.WellFormed(t) && Encode(t) == bytes && Writes(t, before, tree, after, value)
  {
    hide Parse, Writes, Encode, Decode, Texts.WellFormed;
    if Decode(bytes).Some? {
      Utf8Exact(bytes, Decode(bytes).value);
      ParseExact(Decode(bytes).value, value);
    }
    if t, before, tree, after :| Texts.WellFormed(t) && Encode(t) == bytes && Writes(t, before, tree, after, value) {
      Utf8Exact(bytes, t);
    }
  }
}

/** JavaScript strings as UTF-16 code units, and their UTF-8 form: `Buffer.from(s, 'utf8')` and a fatal `TextDecoder`. */
module Texts {
  import opened ByteStrings

  type CodeUnit = u: int | 0 <= u < 0x1_0000

  type Text = seq<CodeUnit>

  predicate IsHigh(u: CodeUnit) {
    0xd800 <= u < 0xdc00
  }

  predicate IsLow(u: CodeUnit) {
    0xdc00 <= u < 0xe000
  }

  predicate IsPair(t: Text) {
    |t| >= 2 && IsHigh(t[0]) && IsLow(t[1])
  }

  /** No surrogate stands alone. */
  predicate WellFormed(t: Text) {
    if |t| == 0 then true
    else if IsPair(t) then WellFormed(t[2..])
    else !IsHigh(t[0]) && !IsLow(t[0]) && WellFormed(t[1..])
  }

  lemma {:induction false} WellFormedAppend(a: Text, b: Text)
    requires WellFormed(a) && WellFormed(b)
    ensures WellFormed(a + b)
  {
    if |a| == 0 {
      assert a + b == b;
    } else if IsPair(a) {
      assert (a + b)[2..] == a[2..] + b;
      WellFormedAppend(a[2..], b);
    } else {
      assert (a + b)[1..] == a[1..] + b;
      WellFormedAppend(a[1..], b);
    }
  }

  lemma {:induction false} PlainIsWellFormed(t: Text)
    requires forall i | 0 <= i < |t| :: !IsHigh(t[i]) && !IsLow(t[i])
    ensures WellFormed(t)
  {
    if |t| > 0 {
      PlainIsWellFormed(t[1..]);
    }
  }

  // ---- code points ----

  /** Unicode scalar values: code points but for the surrogates. */
  predicate IsScalar(p: int) {
    0 <= p < 0xd800 || 0xe000 <= p <= 0x10_ffff
  }

  function PairPoint(high: CodeUnit, low: CodeUnit): (p: nat)
    requires IsHigh(high) && IsLow(low)
    ensures 0x1_0000 <= p <= 0x10_ffff
  {
    0x1_0000 + (high - 0xd800) as int * 0x400 + (low - 0xdc00) as int
  }

  function Units(p: nat): Text
    requires IsScalar(p)
  {
    if p < 0x1_0000 then [p] else [0xd800 + (p - 0x1_0000) / 0x400, 0xdc00 + (p - 0x1_0000) % 0x400]
  }

  function EncodePoint(p: nat): (b: Buffer)
    requires IsScalar(p)
    ensures |b| > 0
  {
    if p < 0x80 then [p]
    else if p < 0x800 then [0xc0 + p / 0x40, 0x80 + p % 0x40]
    else if p < 0x1_0000 then [0xe0 + p / 0x40 / 0x40, 0x80 + p / 0x40 % 0x40, 0x80 + p % 0x40]
    else [0xf0 + p / 0x40 / 0x40 / 0x40, 0x80 + p / 0x40 / 0x40 % 0x40, 0x80 + p / 0x40 % 0x40, 0x80 + p % 0x40]
  }

  const REPLACEMENT: nat := 0xfffd

  function Encode(t: Text): Buffer {
    if |t| == 0 then []
    else if IsPair(t) then EncodePoint(PairPoint(t[0], t[1])) + Encode(t[2..])
    else EncodePoint(if IsHigh(t[0]) || IsLow(t[0]) then REPLACEMENT else t[0]) + Encode(t[1..])
  }

  predicate IsContinuation(b: Buffer, i: nat) {
    i < |b| && 0x80 <= b[i] < 0xc0
  }

  /** The code point `b` starts with and how many bytes it takes; none for an overlong, cut or surrogate form. */
  function DecodePoint(b: Buffer): (r: Option<(nat, nat)>)
    ensures r.Some? ==> IsScalar(r.value.0) && 0 < r.value.1 <= |b|
  {
    if |b| == 0 then None
    else if b[0] < 0x80 then Some((b[0], 1))
    else if 0xc2 <= b[0] < 0xe0 && IsContinuation(b, 1) then Some((Two(b[0], b[1]), 2))
    else if 0xe0 <= b[0] < 0xf0 && IsContinuation(b, 1) && IsContinuation(b, 2) then
      var p := Three(b[0], b[1], b[2]);
      if p >= 0x800 && IsScalar(p) then Some((p, 3)) else None
    else if 0xf0 <= b[0] < 0xf5 && IsContinuation(b, 1) && IsContinuation(b, 2) && IsContinuation(b, 3) then
      var p := Four(b[0], b[1], b[2], b[3]);
      if p >= 0x1_0000 && IsScalar(p) then Some((p, 4)) else None
    else None
  }

  function Two(a: int, b: int): int {
    (a - 0xc0) * 0x40 + (b - 0x80)
  }

  function Three(a: int, b: int, c: int): int {
    (a - 0xe0) * 0x1000 + (b - 0x80) * 0x40 + (c - 0x80)
  }

  function Four(a: int, b: int, c: int, d: int): int {
    (a - 0xf0) * 0x4_0000 + (b - 0x80) * 0x1000 + (c - 0x80) * 0x40 + (d - 0x80)
  }

  function Decode(b: Buffer): Option<Text> {
    if |b| == 0 then Some([])
    else
      var point := DecodePoint(b);
      if point.None? then None
      else
        var rest := Decode(b[point.value.1..]);
        if rest.None? then None else Some(Units(point.value.0) + rest.value)
  }

  /** A number from its sextets. */
  lemma Sextets(p: nat)
    ensures p == p / 0x40 * 0x40 + p % 0x40
    ensures p == p / 0x40 / 0x40 * 0x1000 + p / 0x40 % 0x40 * 0x40 + p % 0x40
    ensures p == p / 0x40 / 0x40 / 0x40 * 0x4_0000 + p / 0x40 / 0x40 % 0x40 * 0x1000 + p / 0x40 % 0x40 * 0x40 + p % 0x40
  {
    var q := p / 0x40;
    var r := q / 0x40;
    assert q == r * 0x40 + q % 0x40;
    assert r == r / 0x40 * 0x40 + r % 0x40;
  }

  lemma PointRoundTrip(p: nat, rest: Buffer)
    requires IsScalar(p)
    ensures DecodePoint(EncodePoint(p) + rest) == Some((p, |EncodePoint(p)|))
  {
    Sextets(p);
    if p < 0x80 {
      assert ([p] + rest)[0] == p;
    } else if p < 0x800 {
      TwoBytes(p, 0xc0 + p / 0x40, 0x80 + p % 0x40, rest);
    } else if p < 0x1_0000 {
      ThreeBytes(p, 0xe0 + p / 0x40 / 0x40, 0x80 + p / 0x40 % 0x40, 0x80 + p % 0x40, rest);
    } else {
      FourBytes(p, 0xf0 + p / 0x40 / 0x40 / 0x40, 0x80 + p / 0x40 / 0x40 % 0x40, 0x80 + p / 0x40 % 0x40, 0x80 + p % 0x40, rest);
    }
  }

  lemma TwoBytes(p: nat, a: Byte, b: Byte, rest: Buffer)
    requires 0x80 <= p < 0x800 && 0xc0 <= a && 0x80 <= b < 0xc0 && p == Two(a, b)
    ensures DecodePoint([a, b] + rest) == Some((p, 2))
  {
    var t := [a, b] + rest;
    assert t[0] == a && t[1] == b;
  }

  lemma ThreeBytes(p: nat, a: Byte, b: Byte, c: Byte, rest: Buffer)
    requires IsScalar(p) && 0x800 <= p < 0x1_0000 && 0xe0 <= a && 0x80 <= b < 0xc0 && 0x80 <= c < 0xc0 && p == Three(a, b, c)
    ensures DecodePoint([a, b, c] + rest) == Some((p, 3))
  {
    var t := [a, b, c] + rest;
    assert t[0] == a && t[1] == b && t[2] == c;
  }

  lemma FourBytes(p: nat, a: Byte, b: Byte, c: Byte, d: Byte, rest: Buffer)
    requires IsScalar(p) && 0x1_0000 <= p && 0xf0 <= a && 0x80 <= b < 0xc0 && 0x80 <= c < 0xc0 && 0x80 <= d < 0xc0 && p == Four(a, b, c, d)
    ensures DecodePoint([a, b, c, d] + rest) == Some((p, 4))
  {
    var t := [a, b, c, d] + rest;
    assert t[0] == a && t[1] == b && t[2] == c && t[3] == d;
  }

  lemma PairRoundTrip(high: CodeUnit, low: CodeUnit)
    requires IsHigh(high) && IsLow(low)
    ensures Units(PairPoint(high, low)) == [high, low]
  {
  }

  lemma DecodeStep(p: nat, rest: Buffer)
    requires IsScalar(p)
    ensures Decode(EncodePoint(p) + rest) == if Decode(rest).None? then None else Some(Units(p) + Decode(rest).value)
  {
    var b := EncodePoint(p) + rest;
    PointRoundTrip(p, rest);
    assert b[|EncodePoint(p)|..] == rest;
  }

  /** A text without lone surrogates survives its encoding. */
  lemma {:induction false} Utf8RoundTrip(t: Text)
    requires WellFormed(t)
    ensures Decode(Encode(t)) == Some(t)
  {
    if |t| > 0 {
      if IsPair(t) {
        Utf8RoundTrip(t[2..]);
        DecodeStep(PairPoint(t[0], t[1]), Encode(t[2..]));
        PairRoundTrip(t[0], t[1]);
        assert t == [t[0], t[1]] + t[2..];
      } else {
        Utf8RoundTrip(t[1..]);
        DecodeStep(t[0], Encode(t[1..]));
        assert t == [t[0]] + t[1..];
      }
    }
  }

  /** A code point read was written so: no other bytes read as it. */
  lemma PointWritten(b: Buffer)
    requires DecodePoint(b).Some?
    ensures var (p, n) := DecodePoint(b).value; b[..n] == EncodePoint(p)
  {
    var (p, n) := DecodePoint(b).value;
    hide EncodePoint;
    if n == 1 {
      Encoded1(p);
    } else if n == 2 {
      Encoded2(b[0] - 0xc0, b[1] - 0x80, p);
    } else if n == 3 {
      Encoded3(b[0] - 0xe0, b[1] - 0x80, b[2] - 0x80, p);
    } else {
      Encoded4(b[0] - 0xf0, b[1] - 0x80, b[2] - 0x80, b[3] - 0x80, p);
    }
  }

  lemma Encoded1(p: nat)
    requires p < 0x80
    ensures EncodePoint(p) == [p]
  {
  }

  lemma Encoded2(a: nat, b: nat, p: nat)
    requires 2 <= a < 0x20 && b < 0x40 && p == a * 0x40 + b
    ensures EncodePoint(p) == [0xc0 + a, 0x80 + b]
  {
    Digits2(a, b, p);
  }

  lemma Encoded3(a: nat, b: nat, c: nat, p: nat)
    requires a < 0x10 && b < 0x40 && c < 0x40 && p == a * 0x1000 + b * 0x40 + c && p >= 0x800 && IsScalar(p)
    ensures EncodePoint(p) == [0xe0 + a, 0x80 + b, 0x80 + c]
  {
    Digits3(a, b, c, p);
  }

  lemma Encoded4(a: nat, b: nat, c: nat, d: nat, p: nat)
    requires a < 5 && b < 0x40 && c < 0x40 && d < 0x40 && p == a * 0x4_0000 + b * 0x1000 + c * 0x40 + d && 0x1_0000 <= p && IsScalar(p)
    ensures EncodePoint(p) == [0xf0 + a, 0x80 + b, 0x80 + c, 0x80 + d]
  {
    Digits4(a, b, c, d, p);
  }

  lemma Digits2(a: nat, b: nat, p: nat)
    requires b < 0x40 && p == a * 0x40 + b
    ensures p / 0x40 == a && p % 0x40 == b
  {
  }

  lemma Digits3(a: nat, b: nat, c: nat, p: nat)
    requires b < 0x40 && c < 0x40 && p == a * 0x1000 + b * 0x40 + c
    ensures p / 0x40 / 0x40 == a && p / 0x40 % 0x40 == b && p % 0x40 == c
  {
    Digits2(a * 0x40 + b, c, p);
    Digits2(a, b, a * 0x40 + b);
  }

  lemma Digits4(a: nat, b: nat, c: nat, d: nat, p: nat)
    requires b < 0x40 && c < 0x40 && d < 0x40 && p == a * 0x4_0000 + b * 0x1000 + c * 0x40 + d
    ensures p / 0x40 / 0x40 / 0x40 == a && p / 0x40 / 0x40 % 0x40 == b && p / 0x40 % 0x40 == c && p % 0x40 == d
  {
    Digits2(a * 0x1000 + b * 0x40 + c, d, p);
    Digits3(a, b, c, a * 0x1000 + b * 0x40 + c);
  }

  lemma UnitsEncode(p: nat, rest: Text)
    requires IsScalar(p) && WellFormed(rest)
    ensures WellFormed(Units(p) + rest) && Encode(Units(p) + rest) == EncodePoint(p) + Encode(rest)
  {
    var t := Units(p) + rest;
    if p < 0x1_0000 {
      assert t[1..] == rest;
    } else {
      assert t[2..] == rest;
      var high, low := 0xd800 + (p - 0x1_0000) / 0x400, 0xdc00 + (p - 0x1_0000) % 0x400;
      assert PairPoint(high, low) == p;
    }
  }

  /** Bytes read as a text are its one encoding, and the text has no lone surrogate. */
  lemma {:induction false} DecodedIsEncoded(b: Buffer)
    ensures Decode(b).Some? ==> WellFormed(Decode(b).value) && Encode(Decode(b).value) == b
  {
    hide DecodePoint, EncodePoint, Encode, WellFormed, Units;
    if |b| == 0 {
      NoBytes();
    } else if DecodePoint(b).Some? {
      var (p, n) := DecodePoint(b).value;
      DecodedIsEncoded(b[n..]);
      PointWritten(b);
      if Decode(b[n..]).Some? {
        UnitsEncode(p, Decode(b[n..]).value);
        assert b == b[..n] + b[n..];
      }
    }
  }

  lemma NoBytes()
    ensures WellFormed([]) && Encode([]) == []
  {
  }

  /** So reading is exact: a text is read from bytes exactly when it has no lone surrogate and they are its encoding. */
  lemma Utf8Exact(b: Buffer, t: Text)
    ensures Decode(b) == Some(t) <==> WellFormed(t) && Encode(t) == b
  {
    DecodedIsEncoded(b);
    if WellFormed(t) {
      Utf8RoundTrip(t);
    }
  }
}

/** Byte strings and the fixed-width big-endian integers every message of the format is built from. */
module ByteStrings {

  type Byte = b: int | 0 <= b < 256

  type Buffer = seq<Byte>

  datatype Option<+T> = None | Some(value: T)

  /** 256 to the power `width`: how many values a field of `width` bytes holds. */
  function Pow256(width: nat): (p: nat)
    ensures p >= 1
  {
    if width == 0 then 1 else 256 * Pow256(width - 1)
  }

  /** `value` in `width` bytes, most significant first. */
  function BigEndian(value: nat, width: nat): (b: Buffer)
    ensures |b| == width
  {
    if width == 0 then [] else BigEndian(value / 256, width - 1) + [value % 256]
  }

  /** The number a big-endian field holds. */
  function ReadBigEndian(b: Buffer): (value: nat)
  {
    if |b| == 0 then 0 else 256 * ReadBigEndian(b[..|b| - 1]) + b[|b| - 1]
  }

  lemma {:induction false} ReadWritten(value: nat, width: nat)
    requires value < Pow256(width)
    ensures ReadBigEndian(BigEndian(value, width)) == value
  {
    if width > 0 {
      ReadWritten(value / 256, width - 1);
      assert BigEndian(value, width)[..width - 1] == BigEndian(value / 256, width - 1);
    }
  }

  lemma {:induction false} WriteRead(b: Buffer)
    ensures ReadBigEndian(b) < Pow256(|b|)
    ensures BigEndian(ReadBigEndian(b), |b|) == b
  {
    if |b| > 0 {
      WriteRead(b[..|b| - 1]);
      assert b == b[..|b| - 1] + [b[|b| - 1]];
    }
  }

  /** Two values of one width share an encoding only when they are equal. */
  lemma BigEndianInjective(x: nat, y: nat, width: nat)
    requires x < Pow256(width) && y < Pow256(width)
    requires BigEndian(x, width) == BigEndian(y, width)
    ensures x == y
  {
    ReadWritten(x, width);
    ReadWritten(y, width);
  }

  lemma Widths()
    ensures Pow256(2) == 0x1_0000
    ensures Pow256(4) == 0x1_0000_0000
    ensures Pow256(8) == 0x1_0000_0000_0000_0000
  {
    assert Pow256(1) == 256 * Pow256(0);
    assert Pow256(2) == 256 * Pow256(1);
    assert Pow256(3) == 256 * Pow256(2);
    assert Pow256(4) == 256 * Pow256(3);
    assert Pow256(5) == 256 * Pow256(4);
    assert Pow256(6) == 256 * Pow256(5);
    assert Pow256(7) == 256 * Pow256(6);
    assert Pow256(8) == 256 * Pow256(7);
  }

  /** The concatenation of `parts`, in order. */
  function Concat<T>(parts: seq<seq<T>>): (all: seq<T>)
  {
    if |parts| == 0 then [] else parts[0] + Concat(parts[1..])
  }

  lemma {:induction false} ConcatAppend<T>(a: seq<seq<T>>, b: seq<seq<T>>)
    ensures Concat(a + b) == Concat(a) + Concat(b)
  {
    if |a| == 0 {
      assert a + b == b;
    } else {
      assert (a + b)[1..] == a[1..] + b;
      ConcatAppend(a[1..], b);
    }
  }

  lemma ConcatPush<T>(a: seq<seq<T>>, last: seq<T>)
    ensures Concat(a + [last]) == Concat(a) + last
  {
    ConcatAppend(a, [last]);
    assert Concat([last]) == last + Concat([]);
  }

  /** Two concatenations agree part by part once the first parts have one length. */
  lemma SplitEqual<T>(a: seq<T>, b: seq<T>, c: seq<T>, d: seq<T>)
    requires a + b == c + d
    requires |a| == |c|
    ensures a == c && b == d
  {
    assert a == (a + b)[..|a|];
    assert c == (c + d)[..|c|];
    assert b == (a + b)[|a|..];
    assert d == (c + d)[|c|..];
  }
}

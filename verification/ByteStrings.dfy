/** Bytes and the numbers that they spell, the most significant byte first. */
module ByteStrings {
  import opened Words
  import opened WordArithmetic

  type Byte = b: int | 0 <= b < 256

  function BigEndian(bytes: seq<Byte>): nat
  {
    if |bytes| == 0 then 0 else 256 * BigEndian(bytes[..|bytes| - 1]) + bytes[|bytes| - 1]
  }

  function Pow256(n: nat): nat { if n == 0 then 1 else 256 * Pow256(n - 1) }

  lemma {:induction false} BigEndianBound(s: seq<Byte>)
    ensures BigEndian(s) < Pow256(|s|)
    decreases |s|
  {
    if |s| > 0 {
      BigEndianBound(s[..|s| - 1]);
    }
  }

  lemma {:induction false} EightBitsEach(n: nat)
    ensures Pow256(n) == Pow2(8 * n)
    decreases n
  {
    if n > 0 {
      EightBitsEach(n - 1);
      Pow2Add(8, 8 * (n - 1));
      assert Pow2(8) == 256;
    }
  }

  /** The first byte counts for the most. */
  lemma {:induction false} FirstByte(s: seq<Byte>)
    requires |s| > 0
    ensures BigEndian(s) == s[0] * Pow256(|s| - 1) + BigEndian(s[1..])
    decreases |s|
  {
    if |s| > 1 {
      var n := |s| - 1;
      FirstByte(s[..n]);
      assert s[..n][1..] == s[1..][..n - 1];
    }
  }

  lemma {:induction false} BigEndianInjective(a: seq<Byte>, b: seq<Byte>)
    requires |a| == |b| && BigEndian(a) == BigEndian(b)
    ensures a == b
    decreases |a|
  {
    if |a| > 0 {
      BigEndianInjective(a[..|a| - 1], b[..|b| - 1]);
      assert a == a[..|a| - 1] + [a[|a| - 1]];
      assert b == b[..|b| - 1] + [b[|b| - 1]];
    }
  }

  lemma OneValue(x: nat, b: nat)
    requires b < Pow2(0)
    ensures Pow2(0) * x + b == x
  {
  }

  lemma Halved(w: nat, x: nat, b: nat)
    ensures (2 * w * x + b) / 2 == w * x + b / 2 && (2 * w * x + b) % 2 == b % 2
  {
    var p := w * x;
    assert 2 * w * x == 2 * p;
  }

  /** The bits of a number made of a higher and a lower part of `k` bits. */
  lemma {:induction false} BitOfParts(x: nat, b: nat, k: nat, i: nat)
    requires b < Pow2(k)
    ensures Bit(Pow2(k) * x + b, i) == if i < k then Bit(b, i) else Bit(x, i - k)
    decreases k
  {
    hide Pow2;
    if k == 0 {
      OneValue(x, b);
    } else {
      var w, n := Pow2(k - 1), Pow2(k) * x + b;
      TwiceHalf(k - 1);
      Halved(w, x, b);
      if i > 0 {
        BitOfParts(x, b / 2, k - 1, i - 1);
      }
    }
  }

  /** Bit `i` of the number is in the byte that is `i / 8` from the end. */
  lemma {:induction false} BitOfBytes(s: seq<Byte>, i: nat)
    ensures Bit(BigEndian(s), i) == (i < 8 * |s| && Bit(s[|s| - 1 - i / 8], i % 8))
    decreases |s|
  {
    if |s| == 0 {
      BitOfZero(i);
    } else {
      var n := |s| - 1;
      assert Pow2(8) == 256;
      BitOfParts(BigEndian(s[..n]), s[n], 8, i);
      if i >= 8 {
        BitOfBytes(s[..n], i - 8);
        assert (i - 8) / 8 == i / 8 - 1 && (i - 8) % 8 == i % 8;
      }
    }
  }

  /** Replacing a byte changes the number by the difference, at the weight of its place. */
  lemma {:induction false} ByteReplaced(s: seq<Byte>, j: nat, b: Byte)
    requires j < |s|
    ensures BigEndian(s[j := b]) == BigEndian(s) + (b - s[j]) * Pow256(|s| - 1 - j)
    decreases |s|
  {
    var n := |s| - 1;
    var r := s[j := b];
    if j < n {
      assert r[..n] == s[..n][j := b];
      ByteReplaced(s[..n], j, b);
      var d, w := b - s[j], Pow256(n - 1 - j);
      assert 256 * (d * w) == d * (256 * w);
    } else {
      assert r[..n] == s[..n];
    }
  }
}

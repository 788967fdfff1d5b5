/** The byte string halfway between two byte strings of at most fifteen bytes. */
module Midpoint {
  import opened Arithmetic
  import opened ByteStrings

  function ByteAt(a: seq<Byte>, i: nat): Byte { if i < |a| then a[i] else 0 }

  /** Fifteen bytes: the given ones, then zeros. */
  function Padded(a: seq<Byte>): (r: seq<Byte>)
    ensures |r| == 15 && forall i :: 0 <= i < 15 ==> r[i] == ByteAt(a, i)
  {
    seq<Byte>(15, i requires 0 <= i < 15 => ByteAt(a, i))
  }

  /** Digit `i` of a sum: what the two digits and the carry from the right add up to is the digit
      and the carry to the left. */
  ghost predicate DigitOk(a: seq<Byte>, b: seq<Byte>, sum: seq<Byte>, carries: seq<int>, i: nat)
    requires i + 1 < |carries| && i + 1 < |sum|
  {
    256 * carries[i] + sum[i + 1] == ByteAt(a, i) + ByteAt(b, i) + carries[i + 1]
  }

  /** Adds from the least significant byte to the most significant. */
  method Add(a: seq<Byte>, b: seq<Byte>, sum: array<Byte>)
    requires sum.Length == 16
    modifies sum
    ensures BigEndian(sum[..]) == BigEndian(Padded(a)) + BigEndian(Padded(b)) && sum[0] <= 1
  {
    var carry: Byte := 0;
    ghost var carries: seq<int> := seq(16, _ => 0);
    var i := 15;
    while i > 0
      invariant 0 <= i <= 15 && carry <= 1
      invariant |carries| == 16 && carries[i] == carry && carries[15] == 0
      invariant forall j :: i <= j < 15 ==> DigitOk(a, b, sum[..], carries, j)
    {
      ghost var was, carried := sum[..], carries;
      i := i - 1;
      var s := ByteAt(a, i) + ByteAt(b, i) + carry;
      sum[i + 1] := s % 256;
      carry := s / 256;
      carries := carries[i := carry];
      assert forall j :: i < j < 15 ==> (DigitOk(a, b, sum[..], carries, j) <==> DigitOk(a, b, was, carried, j));
    }
    ghost var was := sum[..];
    sum[0] := carry;
    assert forall j :: 0 <= j < 15 ==> (DigitOk(a, b, sum[..], carries, j) <==> DigitOk(a, b, was, carries, j));
    SumOfDigits(a, b, sum[..], carries, 15);
    assert sum[..][..16] == sum[..];
    assert Padded(a)[..15] == Padded(a) && Padded(b)[..15] == Padded(b);
  }

  /** Digits that carry correctly add up, from the most significant on. */
  lemma {:induction false} SumOfDigits(a: seq<Byte>, b: seq<Byte>, sum: seq<Byte>, carries: seq<int>, n: nat)
    requires n <= 15 && |sum| == 16 && |carries| == 16 && sum[0] == carries[0]
    requires forall j :: 0 <= j < 15 ==> DigitOk(a, b, sum, carries, j)
    ensures BigEndian(sum[..n + 1]) == BigEndian(Padded(a)[..n]) + BigEndian(Padded(b)[..n]) + carries[n]
    decreases n
  {
    assert sum[..n + 1][..n] == sum[..n];
    if n > 0 {
      SumOfDigits(a, b, sum, carries, n - 1);
      assert DigitOk(a, b, sum, carries, n - 1);
      assert Padded(a)[..n][..n - 1] == Padded(a)[..n - 1] && Padded(b)[..n][..n - 1] == Padded(b)[..n - 1];
    }
  }

  /** Halves from the most significant byte to the least significant. */
  method Halve(sum: array<Byte>) returns (out: seq<Byte>)
    requires sum.Length == 16 && sum[0] <= 1
    ensures |out| == 15 && BigEndian(out) == BigEndian(sum[..]) / 2
  {
    var o := new Byte[15](_ => 0);
    var rem: Byte := 0;
    for i := 0 to 16
      invariant rem <= 1 && (i > 0 ==> 2 * BigEndian(o[..i - 1]) + rem == BigEndian(sum[..i]))
      invariant i == 0 ==> rem == 0
    {
      var byte := sum[i];
      var shifted: Byte := rem * 128 + byte / 2;
      assert sum[..i + 1][..i] == sum[..i];
      if i > 0 {
        ghost var before := o[..i - 1];
        o[i - 1] := shifted;
        assert o[..i][..i - 1] == before;
      }
      rem := byte % 2;
    }
    assert sum[..16] == sum[..] && o[..15] == o[..];
    out := o[..];
  }

  /** Byte strings of one length in the order of their first difference. */
  ghost predicate AtMost(a: seq<Byte>, b: seq<Byte>)
    requires |a| == |b|
  {
    a == b || exists k :: 0 <= k < |a| && Before(a, b, k)
  }

  predicate Before(a: seq<Byte>, b: seq<Byte>, k: nat)
    requires k < |a| == |b|
  {
    a[..k] == b[..k] && a[k] < b[k]
  }

  /** The first byte that differs decides. */
  lemma {:induction false} ValueOrder(a: seq<Byte>, b: seq<Byte>, k: nat)
    requires k < |a| == |b| && Before(a, b, k)
    ensures BigEndian(a) < BigEndian(b)
    decreases |a|
  {
    FirstByte(a);
    FirstByte(b);
    if k > 0 {
      assert a[0] == a[..k][0] && b[0] == b[..k][0];
      assert a[1..][..k - 1] == a[..k][1..] && b[1..][..k - 1] == b[..k][1..];
      ValueOrder(a[1..], b[1..], k - 1);
    } else {
      BigEndianBound(a[1..]);
      MulMono(a[0] + 1, b[0], Pow256(|a| - 1));
      MulNext(a[0], Pow256(|a| - 1));
    }
  }

  /** Byte strings of one length are ordered as their values are. */
  lemma OrderIsValue(a: seq<Byte>, b: seq<Byte>)
    requires |a| == |b|
    ensures AtMost(a, b) <==> BigEndian(a) <= BigEndian(b)
  {
    if a != b {
      var k := FirstDifference(a, b);
      if a[k] < b[k] {
        assert Before(a, b, k);
        ValueOrder(a, b, k);
      } else {
        assert Before(b, a, k);
        ValueOrder(b, a, k);
        if AtMost(a, b) {
          var j :| 0 <= j < |a| && Before(a, b, j);
          ValueOrder(a, b, j);
          assert false;
        }
      }
    }
  }

  lemma {:induction false} FirstDifference(a: seq<Byte>, b: seq<Byte>) returns (k: nat)
    requires |a| == |b| && a != b
    ensures k < |a| && a[..k] == b[..k] && a[k] != b[k]
    decreases |a|
  {
    if a[0] != b[0] {
      k := 0;
    } else {
      assert a == [a[0]] + a[1..] && b == [b[0]] + b[1..];
      k := FirstDifference(a[1..], b[1..]);
      assert a[..k + 1] == [a[0]] + a[1..][..k] && b[..k + 1] == [b[0]] + b[1..][..k];
      k := k + 1;
    }
  }

  /** The result is half the sum of the two values, rounded down, and so lies between them, both as a
      number and in the order of byte strings. */
  method Compute(a: seq<Byte>, b: seq<Byte>) returns (out: seq<Byte>)
    ensures |out| == 15
    ensures BigEndian(out) == (BigEndian(Padded(a)) + BigEndian(Padded(b))) / 2
    ensures AtMost(Padded(a), Padded(b)) ==> AtMost(Padded(a), out) && AtMost(out, Padded(b))
    ensures AtMost(Padded(b), Padded(a)) ==> AtMost(Padded(b), out) && AtMost(out, Padded(a))
  {
    var sum := new Byte[16](_ => 0);
    Add(a, b, sum);
    out := Halve(sum);
    Between(Padded(a), Padded(b), out);
    Between(Padded(b), Padded(a), out);
  }

  lemma Between(a: seq<Byte>, b: seq<Byte>, out: seq<Byte>)
    requires |a| == |b| == |out| && BigEndian(out) == (BigEndian(a) + BigEndian(b)) / 2
    ensures AtMost(a, b) ==> AtMost(a, out) && AtMost(out, b)
  {
    OrderIsValue(a, b);
    OrderIsValue(a, out);
    OrderIsValue(out, b);
  }
}

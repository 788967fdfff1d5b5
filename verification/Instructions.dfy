/** Instruction bytes addressed bit by bit, counting from the right end. */
module Instructions {
  import opened Words
  import opened WordArithmetic
  import ByteStrings

  /** A byte as its bits, least significant first. */
  type Byte = b: seq<bool> | |b| == 8 witness [false, false, false, false, false, false, false, false]

  type Instruction = seq<Byte>

  function BitLen(instr: Instruction): nat { 8 * |instr| }

  /** The byte that holds the bit at position `index`. */
  function ByteOf(instr: Instruction, index: nat): (i: nat)
    requires index < BitLen(instr)
    ensures i < |instr|
  {
    |instr| - 1 - index / 8
  }

  /** `nth_bit_from_right`. */
  predicate Nth(instr: Instruction, index: nat)
    requires index < BitLen(instr)
  {
    instr[ByteOf(instr, index)][index % 8]
  }

  /** `with_nth_bit_from_right`. */
  function With(instr: Instruction, index: nat, bit: bool): (r: Instruction)
    requires index < BitLen(instr)
    ensures |r| == |instr|
    ensures forall j :: 0 <= j < BitLen(instr) ==> Nth(r, j) == if j == index then bit else Nth(instr, j)
  {
    var i := ByteOf(instr, index);
    var byte: Byte := instr[i][index % 8 := bit];
    instr[i := byte]
  }

  /** Instructions of one length are determined by their bits. */
  lemma SameBits(a: Instruction, b: Instruction)
    requires |a| == |b| && forall j :: 0 <= j < BitLen(a) ==> Nth(a, j) == Nth(b, j)
    ensures a == b
  {
    forall i | 0 <= i < |a| ensures a[i] == b[i] {
      forall k | 0 <= k < 8 ensures a[i][k] == b[i][k] {
        var j := 8 * (|a| - 1 - i) + k;
        assert j / 8 == |a| - 1 - i && j % 8 == k;
        assert Nth(a, j) == Nth(b, j);
      }
    }
  }

  // -------------------------------------------------------- the bytes as a number

  lemma ByteValue(b: Byte)
    ensures ToNat(b) < 256
  {
    ToNatBound(b);
    assert Pow2(8) == 256;
  }

  function ByteNumber(b: Byte): ByteStrings.Byte
  {
    ByteValue(b);
    ToNat(b)
  }

  /** The instruction's bytes as numbers, and the number they spell together. */
  function Bytes(instr: Instruction): (r: seq<ByteStrings.Byte>)
    ensures |r| == |instr| && forall i :: 0 <= i < |r| ==> r[i] == ByteNumber(instr[i])
  {
    seq(|instr|, i requires 0 <= i < |instr| => ByteNumber(instr[i]))
  }

  function Number(instr: Instruction): nat { ByteStrings.BigEndian(Bytes(instr)) }

  /** The bits counted from the right are those of the number, from the lowest. */
  lemma NthOfNumber(instr: Instruction, index: nat)
    requires index < BitLen(instr)
    ensures Nth(instr, index) == Bit(Number(instr), index)
  {
    var j := |instr| - 1 - index / 8;
    ByteStrings.BitOfBytes(Bytes(instr), index);
    BitOfToNat(instr[j], index % 8);
  }

  lemma {:induction false} SetBit(s: seq<bool>, k: nat)
    requires k < |s| && !s[k]
    ensures ToNat(s[k := true]) == ToNat(s) + Pow2(k)
    decreases |s|
  {
    var r := s[k := true];
    if k == 0 {
      assert r[1..] == s[1..];
    } else {
      assert r[1..] == s[1..][k - 1 := true];
      SetBit(s[1..], k - 1);
    }
  }

  lemma BytesReplaced(instr: Instruction, j: nat, byte: Byte)
    requires j < |instr|
    ensures Bytes(instr[j := byte]) == Bytes(instr)[j := ByteNumber(byte)]
  {
  }

  /** Setting a clear bit adds its weight to the number. */
  lemma SettingAdds(instr: Instruction, index: nat)
    requires index < BitLen(instr) && !Nth(instr, index)
    ensures Number(With(instr, index, true)) == Number(instr) + Pow2(index)
  {
    hide ToNat, Pow2, ByteStrings.BigEndian, ByteStrings.Pow256;
    var q, k := index / 8, index % 8;
    var j := |instr| - 1 - q;
    var byte: Byte := instr[j][k := true];
    SetBit(instr[j], k);
    BytesReplaced(instr, j, byte);
    ByteStrings.ByteReplaced(Bytes(instr), j, ByteNumber(byte));
    ByteStrings.EightBitsEach(q);
    Pow2Add(k, 8 * q);
  }
}

/** bertlv/primitive/bitstring.go: BIT STRING contents octets (ITU-T X.690 section 8.6). */
module BitStrings {
  import opened Bytes

  /** 1 << x */
  function Shifted(x: nat): (p: nat) { if x == 0 then 1 else 2 * Shifted(x - 1) }

  /** o >> x & 1 == 1 */
  predicate Bit(o: nat, x: nat) { if x == 0 then o % 2 == 1 else Bit(o / 2, x - 1) }

  /** o & (1 << p - 1) */
  function Masked(o: nat, p: nat): nat { if p == 0 then 0 else o % 2 + 2 * Masked(o / 2, p - 1) }

  /** o |= 1 << x */
  function SetBit(o: byte, x: nat): (r: byte)
    requires x < 8
  {
    if Bit(o, x) then o
    else
      assert o + Shifted(x) < 256 by {
        assert Shifted(8) == 256;
        SetBitRange(o, x, 8);
      }
      o + Shifted(x)
  }

  lemma {:induction false} SetBitRange(o: nat, x: nat, n: nat)
    requires x < n && o < Shifted(n) && !Bit(o, x)
    ensures o + Shifted(x) < Shifted(n)
  {
    hide Bit, Shifted;
    Unfold(o, x, n);
    if x > 0 {
      SetBitRange(o / 2, x - 1, n - 1);
      Doubled(o, o / 2, Shifted(x - 1), Shifted(n - 1));
    } else {
      Doubled(o + 1, o / 2, 0, Shifted(n - 1));
    }
  }

  lemma Unfold(o: nat, x: nat, n: nat)
    requires x < n
    ensures Shifted(n) == 2 * Shifted(n - 1)
    ensures if x == 0 then Shifted(x) == 1 && (Bit(o, x) <==> o % 2 == 1)
            else Shifted(x) == 2 * Shifted(x - 1) && (Bit(o, x) <==> Bit(o / 2, x - 1))
  {
  }

  lemma Doubled(o: nat, half: nat, p: nat, q: nat)
    requires o / 2 == half && half + p < q
    ensures o + 2 * p < 2 * q
  {
  }

  lemma {:induction false} SetBitBits(o: nat, x: nat, y: nat)
    requires !Bit(o, x)
    ensures Bit(o + Shifted(x), y) <==> x == y || Bit(o, y)
  {
    if x == 0 {
      assert (o + 1) / 2 == o / 2;
    } else {
      assert (o + Shifted(x)) / 2 == o / 2 + Shifted(x - 1);
      if y > 0 { SetBitBits(o / 2, x - 1, y - 1); }
    }
  }

  lemma {:induction false} ZeroBits(x: nat)
    ensures !Bit(0, x)
  {
    if x > 0 { ZeroBits(x - 1); }
  }

  /** A clear mask means each of the low bits is clear, and a mask that is not names a set bit. */
  lemma {:induction false} MaskedClear(o: nat, p: nat, x: nat)
    requires Masked(o, p) == 0 && x < p
    ensures !Bit(o, x)
  {
    if x > 0 { MaskedClear(o / 2, p - 1, x - 1); }
  }

  lemma {:induction false} MaskedSet(o: nat, p: nat) returns (x: nat)
    requires Masked(o, p) != 0
    ensures x < p && Bit(o, x)
  {
    if o % 2 == 1 { return 0; }
    x := MaskedSet(o / 2, p - 1);
    x := x + 1;
  }

  /** Numbers of n bits that agree on each bit are the same. */
  lemma {:induction false} SameBits(a: nat, b: nat, n: nat)
    requires a < Shifted(n) && b < Shifted(n) && forall x :: 0 <= x < n ==> (Bit(a, x) <==> Bit(b, x))
    ensures a == b
  {
    if n > 0 {
      forall x | 0 <= x < n - 1 ensures Bit(a / 2, x) <==> Bit(b / 2, x) {
        assert Bit(a, x + 1) <==> Bit(b, x + 1);
      }
      SameBits(a / 2, b / 2, n - 1);
      assert Bit(a, 0) <==> Bit(b, 0);
    }
  }

  /** Bit i of contents octets: after the initial octet, most significant bits first. */
  predicate BitAt(data: seq<byte>, i: nat)
    requires 1 + i / 8 < |data|
  {
    Bit(data[1 + i / 8], 7 - i % 8)
  }

  /** Section 8.6.2, with the encoder's own idea of the padding: never 0, and 8, with an octet of
      its own, when the bits fill whole octets. */
  ghost predicate Encodes(data: seq<byte>, bits: seq<bool>) {
    && |data| == |bits| / 8 + 2
    && data[0] == 8 - |bits| % 8
    && (forall i :: 0 <= i < |bits| ==> BitAt(data, i) == bits[i])
    && (forall i :: |bits| <= i < 8 * (|data| - 1) ==> !BitAt(data, i))
  }

  /** What the decoder accepts (bitstring.go:22-27). */
  predicate Acceptable(data: seq<byte>)
    requires data != []
  {
    data[0] <= 7 && (|data| == 1 ==> data[0] == 0) && Masked(data[|data| - 1], data[0]) == 0
  }

  function Bits(data: seq<byte>): (bits: seq<bool>)
    requires data != [] && Acceptable(data)
  {
    seq((|data| - 1) * 8 - data[0], i requires 0 <= i < (|data| - 1) * 8 - data[0] => BitAt(data, i))
  }

  /** MarshalBitString (bitstring.go:42-58). */
  method MarshalBitString(bits: seq<bool>) returns (out: seq<byte>)
    ensures Encodes(out, bits)
  {
    var data := new byte[|bits| / 8 + 2](_ => 0);
    data[0] := 8 - |bits| % 8;
    forall i | 0 <= i < 8 * (data.Length - 1) ensures !BitAt(data[..], i) { ZeroBits(7 - i % 8); }
    var index := 0;
    while index < |bits|
      invariant 0 <= index <= |bits| && data[0] == 8 - |bits| % 8
      invariant forall i :: 0 <= i < index ==> BitAt(data[..], i) == bits[i]
      invariant forall i :: index <= i < 8 * (data.Length - 1) ==> !BitAt(data[..], i)
    {
      var x := 7 - index % 8;
      if bits[index] {
        ghost var was := data[..];
        data[1 + index / 8] := SetBit(data[1 + index / 8], x);
        SetBitAt(was, data[..], index);
      }
      index := index + 1;
    }
    out := data[..];
  }

  lemma SetBitAt(was: seq<byte>, now: seq<byte>, k: nat)
    requires 1 + k / 8 < |was|
    requires now == was[1 + k / 8 := SetBit(was[1 + k / 8], 7 - k % 8)]
    ensures forall i :: 0 <= i < 8 * (|was| - 1) ==> (BitAt(now, i) <==> i == k || BitAt(was, i))
  {
    forall i | 0 <= i < 8 * (|was| - 1) ensures BitAt(now, i) <==> i == k || BitAt(was, i) {
      var o, x := was[1 + k / 8], 7 - k % 8;
      if i / 8 == k / 8 && !Bit(o, x) { SetBitBits(o, x, 7 - i % 8); }
    }
  }

  /** UnmarshalBitString (bitstring.go:20-40); an empty slice is an index panic there. */
  method UnmarshalBitString(data: seq<byte>) returns (bits: Option<seq<bool>>)
    requires data != []
    ensures bits == if Acceptable(data) then Some(Bits(data)) else None
  {
    var padding := data[0];
    if padding > 7 || (|data| == 1 && padding > 0) || Masked(data[|data| - 1], data[0]) != 0 {
      return None;
    }
    var bitLength := (|data| - 1) * 8 - padding;
    var octets := data[1..];
    var flags := new bool[bitLength];
    for i := 0 to bitLength
      invariant forall k :: 0 <= k < i ==> flags[k] == BitAt(data, k)
    {
      var x := 7 - i % 8;
      flags[i] := Bit(octets[i / 8], x);
    }
    assert flags[..] == Bits(data);
    return Some(flags[..]);
  }

  /** Decoding an encoding gives the bits back exactly when their number is not a multiple of 8;
      otherwise the decoder rejects what the encoder wrote. */
  lemma DecodeEncoded(data: seq<byte>, bits: seq<bool>)
    requires Encodes(data, bits)
    ensures Acceptable(data) <==> |bits| % 8 != 0
    ensures |bits| % 8 != 0 ==> Bits(data) == bits
  {
    if |bits| % 8 != 0 {
      var p, last := data[0], data[|data| - 1];
      if Masked(last, p) != 0 {
        var x := MaskedSet(last, p);
        var i := 8 * (|data| - 1) - 1 - x;
        assert BitAt(data, i);
      }
    }
  }

  /** Contents octets that announce padding are the encoding of what they decode to, and of nothing
      else; octets that announce none are not the encoding of anything. */
  lemma EncodeDecoded(data: seq<byte>, bits: seq<bool>)
    requires data != [] && Acceptable(data)
    ensures Encodes(data, bits) <==> data[0] != 0 && bits == Bits(data)
  {
    if data[0] != 0 {
      var p, last, own := data[0], data[|data| - 1], Bits(data);
      forall i | |own| <= i < 8 * (|data| - 1) ensures !BitAt(data, i) {
        var x := 7 - i % 8;
        assert i / 8 == |data| - 2 && x < p;
        MaskedClear(last, p, x);
      }
      assert Encodes(data, own);
    }
    if Encodes(data, bits) {
      DecodeEncoded(data, bits);
    }
  }

  /** Section 8.6.2 leaves one encoding. */
  lemma EncodingUnique(a: seq<byte>, b: seq<byte>, bits: seq<bool>)
    requires Encodes(a, bits) && Encodes(b, bits)
    ensures a == b
  {
    forall j | 1 <= j < |a| ensures a[j] == b[j] {
      forall x | 0 <= x < 8 ensures Bit(a[j], x) <==> Bit(b[j], x) {
        var i := 8 * (j - 1) + 7 - x;
        assert BitAt(a, i) == BitAt(b, i);
      }
      SameBits(a[j], b[j], 8);
    }
  }

  /** Bits as a number, the first the most significant. */
  function Weight(bits: seq<bool>): nat {
    if bits == [] then 0 else 2 * Weight(bits[..|bits| - 1]) + if bits[|bits| - 1] then 1 else 0
  }

  function HighFirst(o: nat, n: nat): (bits: seq<bool>)
    ensures |bits| == n
  {
    seq(n, k requires 0 <= k < n => Bit(o, n - 1 - k))
  }

  lemma {:induction false} WeightOf(o: nat, n: nat)
    requires o < Shifted(n)
    ensures Weight(HighFirst(o, n)) == o
  {
    if n > 0 {
      WeightOf(o / 2, n - 1);
      var bits := HighFirst(o, n);
      forall k | 0 <= k < n - 1 ensures bits[k] == HighFirst(o / 2, n - 1)[k] {
        var x := n - 1 - k;
        assert Bit(o, x) == Bit(o / 2, x - 1);
      }
      assert bits[..n - 1] == HighFirst(o / 2, n - 1);
      assert bits[n - 1] == Bit(o, 0);
    }
  }

  /** So is bit 8j of the contents octets the most significant of octet j, and bit 8j + 7 the least. */
  lemma MostSignificantFirst(data: seq<byte>, j: nat)
    requires 1 + j < |data|
    ensures Weight(seq(8, k requires 0 <= k < 8 => BitAt(data, 8 * j + k))) == data[1 + j]
  {
    var bits := seq(8, k requires 0 <= k < 8 => BitAt(data, 8 * j + k));
    forall k | 0 <= k < 8 ensures bits[k] == HighFirst(data[1 + j], 8)[k] {
      var i := 8 * j + k;
      assert i / 8 == j && 7 - i % 8 == 8 - 1 - k;
      assert BitAt(data, i) == Bit(data[1 + j], 8 - 1 - k);
    }
    assert bits == HighFirst(data[1 + j], 8);
    assert Shifted(8) == 256;
    WeightOf(data[1 + j], 8);
  }
}

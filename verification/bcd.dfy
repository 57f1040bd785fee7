/** v2/identifier.go: GSM binary-coded decimal, as used for ICCID and IMEI. */
module Bcd {
  import opened Bytes

  predicate IsHex(c: char) { '0' <= c <= '9' || 'A' <= c <= 'F' || 'a' <= c <= 'f' }

  predicate AllHex(s: string) { forall i :: 0 <= i < |s| ==> IsHex(s[i]) }

  function HexValue(c: char): (v: int)
    requires IsHex(c)
    ensures 0 <= v < 16
  {
    if '0' <= c <= '9' then c as int - '0' as int
    else if 'A' <= c <= 'F' then c as int - 'A' as int + 10
    else c as int - 'a' as int + 10
  }

  /** A digit as encoding/hex writes it. */
  function HexDigit(v: int): (c: char)
    requires 0 <= v < 16
    ensures IsHex(c) && HexValue(c) == v
  {
    if v < 10 then (v + '0' as int) as char else (v - 10 + 'a' as int) as char
  }

  /** strings.ToLower on hexadecimal digits */
  function Lower(s: string): (t: string)
    requires AllHex(s)
    ensures |t| == |s| && AllHex(t)
  {
    seq(|s|, i requires 0 <= i < |s| => HexDigit(HexValue(s[i])))
  }

  function Padded(s: string): string { if |s| % 2 != 0 then s + "F" else s }

  /** hex.DecodeString */
  function FromHex(s: string): (b: seq<byte>)
    requires AllHex(s) && |s| % 2 == 0
    ensures |b| == |s| / 2
  {
    seq(|s| / 2, i requires 0 <= i < |s| / 2 => HexValue(s[2 * i]) * 16 + HexValue(s[2 * i + 1]))
  }

  /** hex.EncodeToString */
  function ToHex(b: seq<byte>): (s: string)
    ensures |s| == 2 * |b| && AllHex(s)
  {
    seq(2 * |b|, i requires 0 <= i < 2 * |b| => HexDigit(if i % 2 == 0 then b[i / 2] / 16 else b[i / 2] % 16))
  }

  function Swap(o: byte): (r: byte) { o / 16 + o % 16 * 16 }

  function Swapped(b: seq<byte>): (r: seq<byte>)
    ensures |r| == |b|
  {
    seq(|b|, i requires 0 <= i < |b| => Swap(b[i]))
  }

  /** strings.LastIndexByte(s, 'f') */
  function LastF(s: string): (k: int)
    ensures -1 <= k < |s|
    ensures k == -1 ==> 'f' !in s
    ensures k >= 0 ==> s[k] == 'f' && 'f' !in s[k + 1..]
  {
    if s == [] then -1
    else if s[|s| - 1] == 'f' then |s| - 1
    else
      var k := LastF(s[..|s| - 1]);
      assert s == s[..|s| - 1] + [s[|s| - 1]];
      assert k >= 0 ==> s[k + 1..] == s[..|s| - 1][k + 1..] + [s[|s| - 1]];
      k
  }

  /** What encoding a hexadecimal string gives. */
  function Encoded(s: string): (b: seq<byte>)
    requires AllHex(s)
  {
    Swapped(FromHex(Padded(s)))
  }

  /** What decoding gives: the digits before the last f. */
  function Decoded(b: seq<byte>): (s: string)
    ensures AllHex(s)
  {
    var points := ToHex(Swapped(b));
    var k := LastF(points);
    if k != -1 then points[..k] else points
  }

  /** binaryCodedDecimalEncode (identifier.go:47-61); None is the error. */
  method Encode(value: string) returns (res: Option<seq<byte>>)
    ensures res == if AllHex(value) then Some(Encoded(value)) else None
  {
    for i := 0 to |value|
      invariant AllHex(value[..i])
    {
      if !IsHex(value[i]) { return None; }
      assert forall j :: 0 <= j < i ==> value[j] == value[..i][j];
    }
    assert value[..|value|] == value;
    var decoded := FromHex(Padded(value));
    var id := new byte[|decoded|](i requires 0 <= i < |decoded| => decoded[i]);
    for index := 0 to id.Length
      invariant forall j :: 0 <= j < id.Length ==> id[j] == if j < index then Swap(decoded[j]) else decoded[j]
    {
      id[index] := Swap(id[index]);
    }
    assert id[..] == Encoded(value);
    return Some(id[..]);
  }

  /** binaryCodedDecimalDecode (identifier.go:63-74) */
  method Decode(value: seq<byte>) returns (points: string)
    ensures points == Decoded(value)
  {
    var id := new byte[|value|](_ => 0);
    for index := 0 to |value|
      invariant forall j :: 0 <= j < index ==> id[j] == Swap(value[j])
    {
      id[index] := Swap(value[index]);
    }
    assert id[..] == Swapped(value);
    points := ToHex(id[..]);
    var k := LastF(points);
    if k != -1 { points := points[..k]; }
  }

  lemma SwapTwice(b: seq<byte>)
    ensures Swapped(Swapped(b)) == b
  {
  }

  lemma HexOfBytes(b: seq<byte>)
    ensures FromHex(ToHex(b)) == b
  {
    hide HexDigit, HexValue, IsHex;
    forall i | 0 <= i < |b| ensures FromHex(ToHex(b))[i] == b[i] {
      HexAt(b, i, 2 * i);
    }
  }

  lemma HexAt(b: seq<byte>, i: nat, j: nat)
    requires i < |b| && j == 2 * i
    ensures ToHex(b)[j] == HexDigit(b[i] / 16) && ToHex(b)[j + 1] == HexDigit(b[i] % 16)
  {
    hide HexDigit;
    assert j / 2 == i && (j + 1) / 2 == i && j % 2 == 0 && (j + 1) % 2 == 1;
  }

  lemma BytesOfHex(s: string)
    requires AllHex(s) && |s| % 2 == 0
    ensures ToHex(FromHex(s)) == Lower(s)
  {
    hide HexDigit, HexValue, ToHex, FromHex, Lower;
    forall i | 0 <= i < |s| ensures ToHex(FromHex(s))[i] == Lower(s)[i] {
      PairOfHex(s, i / 2, i / 2 * 2);
    }
  }

  lemma PairOfHex(s: string, k: nat, j: nat)
    requires AllHex(s) && |s| % 2 == 0 && k < |s| / 2 && j == 2 * k
    ensures ToHex(FromHex(s))[j] == Lower(s)[j] && ToHex(FromHex(s))[j + 1] == Lower(s)[j + 1]
  {
    HexAt(FromHex(s), k, j);
    hide HexDigit, HexValue, ToHex;
    OctetDigits(HexValue(s[j]), HexValue(s[j + 1]));
  }

  lemma OctetDigits(high: int, low: int)
    requires 0 <= high < 16 && 0 <= low < 16
    ensures (high * 16 + low) / 16 == high && (high * 16 + low) % 16 == low
  {
  }

  lemma LowerF(s: string)
    requires AllHex(s)
    ensures 'f' in Lower(s) <==> 'f' in s || 'F' in s
  {
    forall i | 0 <= i < |s| ensures Lower(s)[i] == 'f' <==> s[i] == 'f' || s[i] == 'F' {
    }
  }

  /** A hexadecimal string comes back, in lower case, exactly when its length is odd or it has no f:
      decoding cuts at the last f, which is the filler only for odd lengths. */
  lemma DecodeEncoded(s: string)
    requires AllHex(s)
    ensures Decoded(Encoded(s)) == Lower(s) <==> |s| % 2 == 1 || ('f' !in s && 'F' !in s)
  {
    var p := Padded(s);
    SwapTwice(FromHex(p));
    BytesOfHex(p);
    var points := Lower(p);
    if |s| % 2 == 1 {
      assert points[|s|] == 'f';
      assert points[..|s|] == Lower(s);
    } else {
      LowerF(s);
    }
  }

  /** A filler digit in upper case stands for the same octet. */
  lemma FillerCase(points: string)
    requires points != [] && AllHex(points) && |points| % 2 == 0 && points[|points| - 1] == 'f'
    ensures FromHex(points[..|points| - 1] + "F") == FromHex(points)
  {
  }

  /** Octets come back exactly when their digits have no f, or the last f is the final digit. */
  lemma EncodeDecoded(b: seq<byte>)
    ensures var points := ToHex(Swapped(b));
            Encoded(Decoded(b)) == b <==> LastF(points) == -1 || LastF(points) == |points| - 1
  {
    hide FromHex, ToHex, Swapped;
    var points := ToHex(Swapped(b));
    var k := LastF(points);
    hide LastF;
    SwapTwice(b);
    HexOfBytes(Swapped(b));
    if k == |points| - 1 && k != -1 {
      FillerCase(points);
    } else if k != -1 {
      assert |Encoded(Decoded(b))| == (k + 1) / 2;
    }
  }

  // Digit by digit

  /** The first digit of a pair is the low half of its octet, the second the high half; a missing one is F. */
  lemma EncodedDigits(s: string, i: nat)
    requires AllHex(s)
    ensures |Encoded(s)| == (|s| + 1) / 2
    ensures 2 * i < |s| ==> i < |Encoded(s)| && Encoded(s)[i] % 16 == HexValue(s[2 * i])
                            && Encoded(s)[i] / 16 == if 2 * i + 1 < |s| then HexValue(s[2 * i + 1]) else 0xF
  {
    hide HexValue;
    if 2 * i < |s| {
      var p := Padded(s);
      assert HexValue('F') == 0xF by { FillerValue(); }
      Halves(HexValue(p[2 * i]), HexValue(p[2 * i + 1]));
    }
  }

  lemma FillerValue()
    ensures HexValue('F') == 0xF && HexValue('f') == 0xF
  {
  }

  lemma Halves(high: int, low: int)
    requires 0 <= high < 16 && 0 <= low < 16
    ensures Swap(high * 16 + low) % 16 == high && Swap(high * 16 + low) / 16 == low
  {
    OctetDigits(high, low);
    OctetDigits(low, high);
  }

  /** Digit j of the octets: low half first. */
  function DigitAt(b: seq<byte>, j: nat): (v: int)
    requires j < 2 * |b|
    ensures 0 <= v < 16
  {
    if j % 2 == 0 then b[j / 2] % 16 else b[j / 2] / 16
  }

  lemma PointAt(b: seq<byte>, j: nat)
    requires j < 2 * |b|
    ensures ToHex(Swapped(b))[j] == HexDigit(DigitAt(b, j))
  {
    hide HexDigit;
    Swaps(b[j / 2]);
  }

  lemma Swaps(o: byte)
    ensures Swap(o) / 16 == o % 16 && Swap(o) % 16 == o / 16
  {
  }

  function Printed(v: int): char
    requires 0 <= v < 16
  {
    "0123456789abcdef"[v]
  }

  /** Decoding gives the digits up to the last F, or all of them when there is none, as 0 to 9 and a to f. */
  lemma DecodedDigits(b: seq<byte>)
    ensures var s, n := Decoded(b), |Decoded(b)|;
            && n <= 2 * |b|
            && (forall j :: 0 <= j < n ==> s[j] == Printed(DigitAt(b, j)))
            && (n < 2 * |b| ==> DigitAt(b, n) == 0xF)
            && (forall j :: n < j < 2 * |b| ==> DigitAt(b, j) != 0xF)
            && (n == 2 * |b| ==> forall j :: 0 <= j < n ==> DigitAt(b, j) != 0xF)
  {
    hide ToHex, Swapped, LastF, DigitAt, Printed;
    var points := ToHex(Swapped(b));
    var k := LastF(points);
    PointsSay(b);
    NoFBehind(points);
  }

  lemma NoFBehind(s: string)
    ensures forall j :: LastF(s) < j < |s| ==> s[j] != 'f'
  {
    hide LastF;
    var k := LastF(s);
    forall j | k < j < |s| ensures s[j] != 'f' {
      if k >= 0 { var t := s[k + 1..]; assert t[j - k - 1] == s[j]; }
    }
  }

  lemma PointsSay(b: seq<byte>)
    ensures var points := ToHex(Swapped(b));
            forall j :: 0 <= j < 2 * |b| ==>
              points[j] == Printed(DigitAt(b, j)) && (points[j] == 'f' <==> DigitAt(b, j) == 0xF)
  {
    hide ToHex, Swapped, DigitAt, HexDigit, Printed;
    forall j | 0 <= j < 2 * |b|
      ensures var c := ToHex(Swapped(b))[j]; c == Printed(DigitAt(b, j)) && (c == 'f' <==> DigitAt(b, j) == 0xF)
    {
      PointAt(b, j);
      DigitChar(DigitAt(b, j));
    }
  }

  lemma DigitChar(v: int)
    requires 0 <= v < 16
    ensures HexDigit(v) == Printed(v) && (HexDigit(v) == 'f' <==> v == 0xF)
  {
  }
}

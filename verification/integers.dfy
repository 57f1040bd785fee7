/** bertlv/primitive/integer.go: INTEGER contents octets (ITU-T X.690 section 8.3). */
module Integers {
  import opened Bytes

  /** The width in octets of a Go signed integer type. */
  predicate Width(size: nat) { size == 1 || size == 2 || size == 4 || size == 8 }

  function Pow256(n: nat): (p: int)
    ensures p >= 1
  {
    if n == 0 then 1 else 256 * Pow256(n - 1)
  }

  /** The number section 8.3.3 gives to contents octets: two's complement. */
  function Signed(s: seq<byte>): int
    requires s != []
  {
    if |s| == 1 then (if s[0] < 128 then s[0] as int else s[0] as int - 256)
    else Signed(s[..|s| - 1]) * 256 + s[|s| - 1]
  }

  /** Section 8.3.2: the first nine bits are not all equal. */
  predicate Minimal(s: seq<byte>) {
    && s != []
    && (|s| == 1 || !((s[0] == 0 && s[1] < 128) || (s[0] == 255 && s[1] >= 128)))
  }

  /** The range of an integer type of that many octets. */
  predicate InRange(v: int, size: nat) { -Pow256(size) <= 2 * v < Pow256(size) }

  /** Conversion to such a type. */
  function Truncate(v: int, size: nat): int {
    if size == 1 then Balanced(v % 0x100, 0x100)
    else if size == 2 then Balanced(v % U16, U16)
    else if size == 4 then Balanced(v % U32, U32)
    else Balanced(v % U64, U64)
  }

  function Balanced(r: int, p: int): int { if 2 * r < p then r else r - p }

  // Two's complement

  lemma {:induction false} SignedRange(s: seq<byte>)
    requires s != []
    ensures InRange(Signed(s), |s|) && (Signed(s) < 0 <==> s[0] >= 128)
  {
    PowEven(|s|);
    if |s| > 1 {
      SignedRange(s[..|s| - 1]);
      PowEven(|s| - 1);
      RangeStep(Signed(s[..|s| - 1]), s[|s| - 1], Pow256(|s| - 1));
    }
  }

  lemma PowEven(n: nat)
    requires n >= 1
    ensures Pow256(n) == 256 * Pow256(n - 1) && Pow256(n) % 2 == 0 && Pow256(0) == 1
  {
  }

  /** One octet more, in a range 256 times as wide. */
  lemma RangeStep(v: int, d: byte, p: int)
    requires -p <= 2 * v < p && p % 2 == 0
    ensures -256 * p <= 2 * (v * 256 + d) < 256 * p && (v * 256 + d < 0 <==> v < 0)
  {
  }

  /** A first octet that only repeats the sign can be dropped. */
  lemma {:induction false} SignedDrop(s: seq<byte>)
    requires |s| >= 2 && ((s[0] == 0 && s[1] < 128) || (s[0] == 255 && s[1] >= 128))
    ensures Signed(s[1..]) == Signed(s)
  {
    if |s| == 2 {
      assert s[..1] == [s[0]] && s[1..] == [s[1]];
    } else {
      var t := s[..|s| - 1];
      SignedDrop(t);
      assert s[1..][..|s| - 2] == t[1..];
    }
  }

  /** A minimal encoding of more than n octets is outside the range of n octets. */
  lemma {:induction false} MinimalIsLong(s: seq<byte>, n: nat)
    requires Minimal(s) && 1 <= n < |s|
    ensures !InRange(Signed(s), n)
    decreases |s|, |s| - n
  {
    var t := s[..|s| - 1];
    if |s| == 2 {
      assert t == [s[0]];
      assert Pow256(1) == 256 * Pow256(0);
    } else if n == |s| - 1 {
      MinimalIsLong(t, n - 1);
      assert Pow256(n) == 256 * Pow256(n - 1);
    } else {
      PowGrows(n, |s| - 1);
      MinimalIsLong(s, |s| - 1);
    }
  }

  lemma {:induction false} PowGrows(a: nat, b: nat)
    requires a <= b
    ensures Pow256(a) <= Pow256(b)
  {
    if a < b { PowGrows(a, b - 1); }
  }

  /** Two encodings of the same number, both minimal, are the same octets. */
  lemma MinimalUnique(a: seq<byte>, b: seq<byte>)
    requires Minimal(a) && Minimal(b) && Signed(a) == Signed(b)
    ensures a == b
  {
    SignedRange(a);
    SignedRange(b);
    if |a| < |b| { MinimalIsLong(b, |a|); }
    if |b| < |a| { MinimalIsLong(a, |b|); }
    SameLength(a, b);
  }

  lemma {:induction false} SameLength(a: seq<byte>, b: seq<byte>)
    requires |a| == |b| >= 1 && Signed(a) == Signed(b)
    ensures a == b
  {
    if |a| > 1 {
      SameLength(a[..|a| - 1], b[..|b| - 1]);
      assert a == a[..|a| - 1] + [a[|a| - 1]];
      assert b == b[..|b| - 1] + [b[|b| - 1]];
    }
  }

  /** Encoding is undone by decoding, and decoding by encoding up to the shortest form. */
  lemma RoundTrip(out: seq<byte>, data: seq<byte>)
    requires Minimal(out) && data != [] && Signed(out) == Signed(data)
    ensures |out| <= |data|
    ensures out == data <==> Minimal(data)
  {
    SignedRange(data);
    if |out| > |data| { MinimalIsLong(out, |data|); }
    if Minimal(data) { MinimalUnique(out, data); }
  }

  // The methods

  /** The n low-order octets of a number. */
  function Octets(v: int, n: nat): (s: seq<byte>)
    ensures |s| == n
    decreases n
  {
    if n == 0 then [] else Octets(v / 256, n - 1) + [v % 256]
  }

  lemma InnerRange(v: int, n: nat)
    requires n >= 2 && InRange(v, n)
    ensures InRange(v / 256, n - 1)
  {
    assert Pow256(n) == 256 * Pow256(n - 1) && Pow256(n - 1) == 256 * Pow256(n - 2);
    Quotient(v, v / 256, Pow256(n - 2));
  }

  lemma Quotient(v: int, q: int, p: int)
    requires -65536 * p <= 2 * v < 65536 * p && 256 * q <= v < 256 * q + 256
    ensures -256 * p <= 2 * q < 256 * p
  {
    assert q <= -128 * p - 1 ==> 256 * q + 255 <= -32768 * p - 1;
  }

  lemma {:induction false} OctetsSigned(v: int, n: nat)
    requires n >= 1 && InRange(v, n)
    ensures Signed(Octets(v, n)) == v
    decreases n
  {
    if n == 1 {
      assert Pow256(1) == 256 * Pow256(0);
      assert Octets(v / 256, 0) == [] && Pow256(0) == 1;
    } else {
      InnerRange(v, n);
      OctetsSigned(v / 256, n - 1);
      var s := Octets(v, n);
      assert s[..n - 1] == Octets(v / 256, n - 1);
    }
  }

  /** MarshalInt (integer.go:43-59): the unique minimal encoding. */
  method MarshalInt(value: int, size: nat) returns (out: seq<byte>)
    requires Width(size) && InRange(value, size)
    ensures Minimal(out) && |out| <= size && Signed(out) == value
  {
    hide Pow256, Signed;
    var buf := new byte[8](_ => 0);
    var v, i := value, 8;
    while i > 0
      invariant 0 <= i <= 8
      invariant Octets(value, 8) == Octets(v, i) + buf[i..]
    {
      i := i - 1;
      buf[i] := v % 256;
      assert buf[i..] == [v % 256] + buf[i + 1..];
      v := v / 256;
    }
    assert buf[..] == buf[0..] == Octets(value, 8);
    PowGrows(size, 8);
    OctetsSigned(value, 8);
    var start := SkipSign(buf);
    out := buf[start..];
    hide Octets;
    if |out| > size { MinimalIsLong(out, size); }
  }

  /** The second loop inside it (integer.go:51-56). */
  method SkipSign(buf: array<byte>) returns (start: nat)
    requires buf.Length == 8
    ensures start < 8 && Minimal(buf[start..]) && Signed(buf[start..]) == Signed(buf[..])
  {
    hide Signed;
    assert buf[0..] == buf[..];
    start := 0;
    while start < 7 && ((buf[start] == 0 && buf[start + 1] < 128) || (buf[start] == 255 && buf[start + 1] >= 128))
      invariant 0 <= start <= 7
      invariant Signed(buf[start..]) == Signed(buf[..])
    {
      SignedDrop(buf[start..]);
      assert buf[start..][1..] == buf[start + 1..];
      start := start + 1;
    }
  }

  lemma TruncateFits(v: int, size: nat)
    requires Width(size) && InRange(v, size)
    ensures Truncate(v, size) == v
  {
    assert Pow256(1) == 256 * Pow256(0) && Pow256(2) == 256 * Pow256(1);
    assert Pow256(4) == 256 * Pow256(3) == 65536 * Pow256(2);
    assert Pow256(8) == 256 * Pow256(7) == 65536 * Pow256(6) && Pow256(6) == 256 * Pow256(5);
    hide Pow256;
    if size == 8 {
      assert Pow256(8) == U64;
    }
  }

  /** UnmarshalInt (integer.go:13-41): value is what the target variable holds before. The target is
      an integer of size octets; n << 8 clears eight bits, so the exclusive or adds the octet. */
  method UnmarshalInt(data: seq<byte>, size: nat, value: int) returns (ok: bool, out: int)
    requires Width(size)
    ensures ok <==> |data| <= size
    ensures out == if 1 <= |data| <= size then Signed(data) else value
  {
    if |data| == 0 { return true, value; }
    if |data| > size { return false, value; }
    var d := data;
    if data[0] == 0 || data[0] == 255 {
      var index, k := 0, 0;
      assert data[0..] == data;
      while k < |data| - 1
        invariant 0 <= k <= |data| - 1 && 0 <= index <= k
        invariant Signed(data[k..]) == Signed(data) == Signed(data[index..])
        invariant k > 0 ==> data[k] / 128 == data[0] / 128
      {
        index := k;
        if data[k] != data[0] || data[k + 1] / 128 != data[0] / 128 { break; }
        SignedDrop(data[k..]);
        assert data[k..][1..] == data[k + 1..];
        k := k + 1;
      }
      d := data[index..];
    }
    var n := if d[0] > 0x7f then -1 else 0;
    var k := 0;
    while k < |d|
      invariant 0 <= k <= |d|
      invariant n == SignedSoFar(d, k)
    {
      ShiftFits(d, k, size);
      n := Truncate(n * 256 + d[k], size);
      k := k + 1;
    }
    assert d[..k] == d;
    return true, n;
  }

  /** What the first k octets say, starting from the sign. */
  ghost function SignedSoFar(d: seq<byte>, k: nat): int
    requires k <= |d| && d != []
  {
    if k == 0 then (if d[0] > 0x7f then -1 else 0) else Signed(d[..k])
  }

  /** Shifting in one more octet stays in the type. */
  lemma ShiftFits(d: seq<byte>, k: nat, size: nat)
    requires Width(size) && k < |d| <= size
    ensures Truncate(SignedSoFar(d, k) * 256 + d[k], size) == SignedSoFar(d, k + 1)
  {
    var v := SignedSoFar(d, k + 1);
    assert d[..k + 1][..k] == d[..k];
    assert v == SignedSoFar(d, k) * 256 + d[k];
    SignedRange(d[..k + 1]);
    PowGrows(k + 1, size);
    hide Signed, Truncate;
    TruncateFits(v, size);
  }

  // By weights

  /** The octets as a number, the first the most significant. */
  function Unsigned(s: seq<byte>): int {
    if s == [] then 0 else s[0] as int * Pow256(|s| - 1) + Unsigned(s[1..])
  }

  lemma {:induction false} UnsignedMore(s: seq<byte>, d: byte)
    ensures Unsigned(s + [d]) == Unsigned(s) * 256 + d as int
  {
    if s == [] {
      assert [] + [d] == [d] && [d][1..] == [];
      assert Pow256(0) == 1;
    } else {
      UnsignedMore(s[1..], d);
      assert (s + [d])[1..] == s[1..] + [d];
      Scale(s[0], Pow256(|s| - 1));
    }
  }

  lemma Scale(a: int, p: int)
    ensures a * (256 * p) == 256 * (a * p)
  {
  }

  /** Two's complement is that number, less 256^n when the first bit is set. */
  lemma {:induction false} SignedByWeight(s: seq<byte>)
    requires s != []
    ensures Signed(s) == Unsigned(s) - if s[0] >= 128 then Pow256(|s|) else 0
  {
    var t, d := s[..|s| - 1], s[|s| - 1];
    assert s == t + [d];
    UnsignedMore(t, d);
    if |s| > 1 {
      SignedByWeight(t);
    } else {
      assert Unsigned(t) == 0 && Pow256(1) == 256 * Pow256(0);
    }
  }
}

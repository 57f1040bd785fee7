/** Octets, little-endian integers, and the in-memory readers and writers that the codecs work on. */
module Bytes {

  type byte = x: int | 0 <= x < 256

  const U16: int := 0x1_0000
  const U24: int := 0x100_0000
  const U32: int := 0x1_0000_0000
  const U64: int := 0x1_0000_0000_0000_0000

  type u16 = x: int | 0 <= x < U16

  /** Conversion to uint16 */
  function Wrap16(n: int): u16 { n % U16 }

  type u32 = x: int | 0 <= x < U32

  /** Conversion to uint32 */
  function Wrap32(n: int): u32 { n % U32 }

  datatype Option<+T> = None | Some(value: T)

  function Min(a: nat, b: nat): nat { if a < b then a else b }

  /** binary.LittleEndian.PutUint16 */
  function Le16(n: int): (s: seq<byte>)
    requires 0 <= n < U16
    ensures |s| == 2
  {
    [n % 256, n / 256]
  }

  /** binary.LittleEndian.PutUint32 */
  function Le32(n: int): (s: seq<byte>)
    requires 0 <= n < U32
    ensures |s| == 4
  {
    Le16(n % U16) + Le16(n / U16)
  }

  /** binary.LittleEndian.Uint16 of the two octets at i */
  function Get16(s: seq<byte>, i: nat): (n: int)
    requires i + 2 <= |s|
    ensures 0 <= n < U16
  {
    s[i] as int + 256 * s[i + 1] as int
  }

  /** binary.LittleEndian.Uint32 of the four octets at i */
  function Get32(s: seq<byte>, i: nat): (n: int)
    requires i + 4 <= |s|
    ensures 0 <= n < U32
  {
    Get16(s, i) + U16 * Get16(s, i + 2)
  }

  /** A 16-bit field reads back what was put there, and nothing else encodes to the same octets. */
  lemma Field16(s: seq<byte>, i: nat, n: int)
    requires i + 2 <= |s| && 0 <= n < U16
    ensures s[i..i + 2] == Le16(n) <==> Get16(s, i) == n
  {
  }

  /** A 32-bit field reads back what was put there, and nothing else encodes to the same octets. */
  lemma Field32(s: seq<byte>, i: nat, n: int)
    requires i + 4 <= |s| && 0 <= n < U32
    ensures s[i..i + 4] == Le32(n) <==> Get32(s, i) == n
  {
    Field16(s, i, n % U16);
    Field16(s, i + 2, n / U16);
    var f := s[i..i + 4];
    assert f == s[i..i + 2] + s[i + 2..i + 4];
    assert f[..2] == s[i..i + 2] && f[2..] == s[i + 2..i + 4];
    assert Le32(n)[..2] == Le16(n % U16) && Le32(n)[2..] == Le16(n / U16);
  }

  /** The octets of a field, the least significant first. */
  lemma LeastFirst(s: seq<byte>, i: nat)
    ensures i + 2 <= |s| ==> Get16(s, i) == s[i] as int + 0x100 * s[i + 1] as int
    ensures i + 4 <= |s| ==> Get32(s, i) == s[i] as int + 0x100 * s[i + 1] as int + 0x1_0000 * s[i + 2] as int
                                            + 0x100_0000 * s[i + 3] as int
  {
  }

  /** A field written between other octets reads back. */
  lemma Read16(pre: seq<byte>, n: int, post: seq<byte>)
    requires 0 <= n < U16
    ensures Get16(pre + Le16(n) + post, |pre|) == n
  {
  }

  lemma Read32(pre: seq<byte>, n: u32, post: seq<byte>)
    ensures Get32(pre + Le32(n) + post, |pre|) == n
  {
  }

  /** A prefix made of two parts, cut where they meet. */
  lemma Cut<T>(s: seq<T>, a: seq<T>, b: seq<T>, k: nat)
    requires k <= |s| && a + b == s[..k]
    ensures s == a + (b + s[k..])
    ensures a == s[..|a|] && b == s[|a|..][..|b|]
  {
    assert s == s[..k] + s[k..];
    assert s[..k][..|a|] == s[..|a|];
    assert s[..k][|a|..] == s[|a|..][..|b|];
  }

  /** Two neighbouring pieces make one. */
  lemma Join<T>(s: seq<T>, i: nat, j: nat)
    requires i + j <= |s|
    ensures s[..i + j] == s[..i] + s[i..][..j]
  {
  }

  lemma Drop<T>(s: seq<T>, i: nat, j: nat)
    requires i + j <= |s|
    ensures s[i..][j..] == s[i + j..]
  {
  }

  lemma Regroup<T>(a: seq<T>, b: seq<T>, c: seq<T>)
    ensures (a + b) + c == a + (b + c)
  {
  }

  /** The head of a, set apart. */
  lemma HeadApart<T>(a: seq<T>, b: seq<T>)
    requires a != []
    ensures a == [a[0]] + a[1..] && a + b == [a[0]] + (a[1..] + b) && (a + b)[1..] == a[1..] + b
  {
  }

  function Concat(parts: seq<seq<byte>>): seq<byte> {
    if parts == [] then [] else parts[0] + Concat(parts[1..])
  }

  lemma {:induction false} ConcatAppend(a: seq<seq<byte>>, b: seq<seq<byte>>)
    ensures Concat(a + b) == Concat(a) + Concat(b)
  {
    if a == [] {
      assert a + b == b;
    } else {
      assert (a + b)[1..] == a[1..] + b;
      ConcatAppend(a[1..], b);
    }
  }

  lemma ConcatOne(a: seq<byte>)
    ensures Concat([a]) == a
  {
  }

  /** A counting reader over a byte slice: the octets not read yet, and how many were read. */
  class Reader {
    var rest: seq<byte>
    var taken: nat

    constructor (data: seq<byte>)
      ensures rest == data && taken == 0
    {
      rest, taken := data, 0;
    }

    /** io.ReadFull: n octets, or as many as there are. */
    method ReadFull(n: nat) returns (got: seq<byte>)
      modifies this
      ensures got == old(rest)[..Min(n, |old(rest)|)]
      ensures rest == old(rest)[|got|..] && taken == old(taken) + |got|
    {
      var k := Min(n, |rest|);
      got := rest[..k];
      rest, taken := rest[k..], taken + k;
    }
  }

  /** bytes.Buffer as a sink: writing appends and never fails. */
  class Sink {
    var data: seq<byte>

    constructor ()
      ensures data == []
    {
      data := [];
    }

    method Write(p: seq<byte>)
      modifies this
      ensures data == old(data) + p
    {
      data := data + p;
    }
  }
}

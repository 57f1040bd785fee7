/** Cutting octets into pieces of one size, the last one shorter (slices.Chunk and its like). */
module Chunks {
  import opened Bytes

  /** How many pieces there are. */
  function PieceCount(len: nat, size: nat): (n: nat)
    requires size > 0
  {
    if len % size == 0 then len / size else len / size + 1
  }

  /** Where piece i starts; the length itself from the last piece's end on. */
  function Start(len: nat, size: nat, i: nat): (at: nat)
    ensures at <= len
  {
    Min(i * size, len)
  }

  /** The piece of at most size octets at the front. */
  function Front(s: seq<byte>, size: nat): (p: seq<byte>) { s[..Min(size, |s|)] }

  function Piece(s: seq<byte>, size: nat, i: nat): (p: seq<byte>)
    ensures |p| <= size
  {
    Front(s[Start(|s|, size, i)..], size)
  }

  function Pieces(s: seq<byte>, size: nat): (ps: seq<seq<byte>>)
    requires size > 0
    ensures |ps| == PieceCount(|s|, size)
  {
    seq(PieceCount(|s|, size), i requires 0 <= i < PieceCount(|s|, size) => Piece(s, size, i))
  }

  lemma Multiples(len: nat, size: nat, i: nat)
    requires size > 0
    ensures i < PieceCount(len, size) <==> i * size < len
  {
    var q := len / size;
    assert len == q * size + len % size;
    if i < q { Scaled(i + 1, q, size); }
    if i > q { Scaled(q + 1, i, size); }
  }

  lemma StartNext(len: nat, size: nat, i: nat)
    requires size > 0
    ensures i < PieceCount(len, size) <==> Start(len, size, i) < len
    ensures Start(len, size, i + 1) == Min(Start(len, size, i) + size, len)
    ensures Start(len, size, 0) == 0
  {
    hide PieceCount;
    Multiples(len, size, i);
    assert (i + 1) * size == i * size + size;
  }

  /** (len + size - 1) / size, as the frame count is written */
  lemma CountRoundsUp(len: nat, size: nat)
    requires size > 0
    ensures (len + size - 1) / size == PieceCount(len, size)
  {
    var q, r := len / size, len % size;
    assert len == q * size + r;
    if r == 0 {
      assert len + size - 1 == q * size + (size - 1);
      Quotient(q, size, size - 1);
    } else {
      assert len + size - 1 == (q + 1) * size + (r - 1);
      Quotient(q + 1, size, r - 1);
    }
  }

  lemma Quotient(q: nat, size: nat, r: nat)
    requires r < size
    ensures (q * size + r) / size == q
  {
    var n := q * size + r;
    NotLess(q, size, r, n / size, n % size);
    NotLess(n / size, size, n % size, q, r);
  }

  lemma NotLess(a: nat, size: nat, r: nat, b: nat, t: nat)
    requires r < size && t < size && a * size + r == b * size + t
    ensures a >= b
  {
    if a < b { Scaled(a + 1, b, size); }
  }

  lemma Scaled(a: nat, b: nat, size: nat)
    requires a <= b
    ensures a * size <= b * size
  {
  }

  /** The pieces up to i, put together, and one more. */
  lemma PrefixGrows(s: seq<byte>, size: nat, i: nat)
    requires size > 0 && i < PieceCount(|s|, size)
    ensures s[..Start(|s|, size, i + 1)] == s[..Start(|s|, size, i)] + Piece(s, size, i)
    ensures Piece(s, size, i) != []
  {
    hide PieceCount, Start;
    StartNext(|s|, size, i);
  }

  /** The pieces, put together, are the whole. */
  lemma PiecesJoin(s: seq<byte>, size: nat)
    requires size > 0
    ensures Concat(Pieces(s, size)) == s
  {
    StartNext(|s|, size, 0);
    PiecesJoinFrom(s, size, 0);
    assert Pieces(s, size)[0..] == Pieces(s, size) && s[0..] == s;
  }

  lemma {:induction false} PiecesJoinFrom(s: seq<byte>, size: nat, i: nat)
    requires size > 0 && i <= PieceCount(|s|, size)
    ensures Concat(Pieces(s, size)[i..]) == s[Start(|s|, size, i)..]
    decreases PieceCount(|s|, size) - i
  {
    hide PieceCount, Start;
    StartNext(|s|, size, i);
    if i < PieceCount(|s|, size) {
      PiecesJoinFrom(s, size, i + 1);
      var ps, at := Pieces(s, size), Start(|s|, size, i);
      assert ps[i..] == [Front(s[at..], size)] + ps[i + 1..];
      FrontAndRest(s, size, at);
    }
  }

  lemma FrontAndRest(s: seq<byte>, size: nat, at: nat)
    requires at <= |s|
    ensures s[at..] == Front(s[at..], size) + s[Min(at + size, |s|)..]
  {
  }
}

/** bertlv/length.go: length octets (ITU-T X.690 section 8.1.3), definite form, up to three octets. */
module Lengths {
  import opened Bytes

  /** The octets a length takes: one below 128, otherwise a count octet and one to three more. */
  function LengthSize(n: int): nat {
    if n < 128 then 1 else if n < 256 then 2 else if n < U16 then 3 else 4
  }

  /** marshalLength (length.go:9-21), which panics from 2^24 on. */
  function LengthOctets(n: nat): (s: seq<byte>)
    requires n < U24
    ensures |s| == LengthSize(n)
  {
    if n < 128 then [n]
    else if n < 256 then [0x81, n]
    else if n < U16 then [0x82, n / 256, n % 256]
    else [0x83, n / U16, n / 256 % 256, n % 256]
  }

  /** readLength (length.go:23-53): the value and the octets taken. */
  function ReadLength(s: seq<byte>): (r: Option<(nat, nat)>)
    ensures r.Some? ==> r.value.0 < U24 && 1 <= r.value.1 <= |s|
  {
    if |s| < 1 then None
    else if s[0] == 0x81 then
      if |s| < 2 then None else Some((s[1], 2))
    else if s[0] == 0x82 then
      if |s| < 3 then None else Some((s[1] as int * 256 + s[2], 3))
    else if s[0] == 0x83 then
      if |s| < 4 then None else Some((s[1] as int * U16 + s[2] as int * 256 + s[3], 4))
    else if s[0] >= 0x80 then None
    else Some((s[0], 1))
  }

  /** How many octets reading a length takes; all there are when they end too soon, and one when that one
      announces a form that is not read. */
  function LengthTaken(s: seq<byte>): (n: nat)
    ensures n <= |s|
  {
    var r := ReadLength(s);
    if r.Some? then r.value.1 else if s != [] && s[0] >= 0x80 && !(0x81 <= s[0] <= 0x83) then 1 else |s|
  }

  method Read(r: Reader) returns (res: Option<nat>)
    modifies r
    ensures res.Some? <==> ReadLength(old(r.rest)).Some?
    ensures res.Some? ==> res.value == ReadLength(old(r.rest)).value.0
    ensures r.rest == old(r.rest)[LengthTaken(old(r.rest))..] && r.taken == old(r.taken) + LengthTaken(old(r.rest))
  {
    var length := r.ReadFull(1);
    if |length| < 1 { return None; }
    match length[0] {
      case 0x81 =>
        length := r.ReadFull(1);
        if |length| < 1 { return None; }
        res := Some(length[0] as int);
      case 0x82 =>
        length := r.ReadFull(2);
        if |length| < 2 { return None; }
        res := Some(length[0] as int * 256 + length[1]);
      case 0x83 =>
        length := r.ReadFull(3);
        if |length| < 3 { return None; }
        res := Some(length[0] as int * U16 + length[1] as int * 256 + length[2]);
      case _ =>
        if length[0] >= 0x80 { return None; }
        res := Some(length[0] as int);
    }
  }

  /** Written lengths read back, whatever follows. */
  lemma ReadWritten(n: nat, rest: seq<byte>)
    requires n < U24
    ensures ReadLength(LengthOctets(n) + rest) == Some((n, LengthSize(n)))
  {
  }

  /** A length that was read is never longer when written again, and comes out the same octets
      exactly when it was already the shortest. */
  lemma WriteRead(s: seq<byte>)
    requires ReadLength(s).Some?
    ensures var (n, k) := ReadLength(s).value;
            && LengthSize(n) <= k
            && (LengthOctets(n) == s[..k] <==> LengthSize(n) == k)
  {
    if |s| >= 2 && s[0] == 0x81 {
      assert s[..2] == [0x81, s[1]];
    } else if |s| >= 3 && s[0] == 0x82 {
      assert s[..3] == [0x82, s[1], s[2]];
      assert (s[1] as int * 256 + s[2]) / 256 == s[1];
    } else if |s| >= 4 && s[0] == 0x83 {
      assert s[..4] == [0x83, s[1], s[2], s[3]];
      ThreeOctets(s[1], s[2], s[3]);
    } else {
      assert s[..1] == [s[0]];
    }
  }

  lemma ThreeOctets(a: byte, b: byte, c: byte)
    ensures var n := a as int * U16 + b as int * 256 + c;
            n / U16 == a && n / 256 % 256 == b && n % 256 == c
  {
    var n := a as int * U16 + b as int * 256 + c;
    assert n / 256 == a as int * 256 + b;
  }

  /** Octets as a number, the first the most significant. */
  function BigEndian(s: seq<byte>): nat {
    if s == [] then 0 else BigEndian(s[..|s| - 1]) * 0x100 + s[|s| - 1] as int
  }

  /** A length below 128 is its own octet; another is 80 plus how many octets spell it, and these, the most significant
      first and not zero. */
  lemma LengthSpelled(n: nat)
    requires n < U24
    ensures var s := LengthOctets(n);
            if n < 0x80 then s == [n]
            else |s| > 1 && s[0] == 0x80 + |s| - 1 && BigEndian(s[1..]) == n && s[1] != 0
  {
    var s := LengthOctets(n);
    if n >= 0x80 { Spelled(s[1..]); }
  }

  lemma Spelled(s: seq<byte>)
    requires 1 <= |s| <= 3
    ensures BigEndian(s) == if |s| == 1 then s[0] as int
                            else if |s| == 2 then s[0] as int * 0x100 + s[1] as int
                            else s[0] as int * 0x1_0000 + s[1] as int * 0x100 + s[2] as int
  {
    var t := s[..|s| - 1];
    assert BigEndian([]) == 0 && s[..0] == [];
    if |s| > 1 { assert t[..|t| - 1] == s[..|s| - 2]; }
    if |s| > 2 { assert s[..1][..0] == []; }
  }

  /** Read, an octet below 80 is the length, and 81 to 83 are followed by one to three octets that spell it; what is
      cut short, and any other first octet, is an error. */
  lemma LengthRead(s: seq<byte>)
    ensures ReadLength(s)
            == if s == [] then None
               else if s[0] < 0x80 then Some((s[0], 1))
               else
                 var k := s[0] as int - 0x80;
                 if 1 <= k <= 3 && k < |s| then Some((BigEndian(s[1..1 + k]), 1 + k)) else None
  {
    if s != [] && 0x81 <= s[0] <= 0x83 && s[0] as int - 0x80 < |s| { Spelled(s[1..1 + (s[0] as int - 0x80)]); }
  }
}

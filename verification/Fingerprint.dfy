/** The djb2 block hash and the three-byte window fingerprint derived from it. */
module Fingerprint {
  import opened Common

  /** The table size the server reduces its hashes by; the server divides by it, so it is positive. */
  type MaxSize = x: int | 0 < x < TWO_32 witness 1

  /** The value of a C `char` on a host where `char` is signed. */
  function SignedChar(b: byte): int {
    if b < 128 then b else b - 256
  }

  /** Where the C string stored in b stops: its first NUL, or its end. */
  function NulIndex(b: seq<byte>): (k: nat)
    ensures k <= |b|
    ensures forall j :: 0 <= j < k ==> b[j] != 0
    ensures k < |b| ==> b[k] == 0
  {
    if b == [] || b[0] == 0 then 0 else 1 + NulIndex(b[1..])
  }

  function Pow33(k: nat): nat {
    if k == 0 then 1 else 33 * Pow33(k - 1)
  }

  /** The sum of SignedChar(b[j]) * 33^(k-1-j) over j below n. */
  function WeightedSum(b: seq<byte>, k: nat, n: nat): int
    requires n <= k <= |b|
  {
    if n == 0 then 0 else WeightedSum(b, k, n - 1) + SignedChar(b[n - 1]) * Pow33(k - n)
  }

  /** The exact integer whose residue djb2 computes for the first k bytes. */
  function Polynomial(b: seq<byte>, k: nat): int
    requires k <= |b|
  {
    5381 * Pow33(k) + WeightedSum(b, k, k)
  }

  /** The block number of b, in closed form. */
  function Number(m: MaxSize, b: seq<byte>): uint32 {
    (Polynomial(b, NulIndex(b)) % TWO_32) % m
  }

  function HashOf(m: MaxSize): Hash {
    (b: seq<byte>) => Number(m, b)
  }

  lemma {:induction false} WeightedSumScales(b: seq<byte>, k: nat, n: nat)
    requires n <= k < |b|
    ensures WeightedSum(b, k + 1, n) == 33 * WeightedSum(b, k, n)
  {
    if n == 0 {
    } else {
      WeightedSumScales(b, k, n - 1);
      var c, p := SignedChar(b[n - 1]), Pow33(k - n);
      assert Pow33(k + 1 - n) == 33 * p;
      assert c * (33 * p) == 33 * (c * p);
    }
  }

  /** One more byte is one Horner step. */
  lemma HornerStep(b: seq<byte>, k: nat)
    requires k < |b|
    ensures Polynomial(b, k + 1) == 33 * Polynomial(b, k) + SignedChar(b[k])
  {
    WeightedSumScales(b, k, k);
    assert SignedChar(b[k]) * Pow33(0) == SignedChar(b[k]);
  }

  lemma SameResidue(x: int, k: int)
    ensures (x + k * TWO_32) % TWO_32 == x % TWO_32
  {
  }

  /** The 32-bit shift-and-add of the loop body has the residue of multiplying by 33 and adding. */
  lemma ShiftAddWraps(x: int, hash: uint32, c: int)
    requires hash == x % TWO_32
    ensures ((hash * 32) % TWO_32 + hash + c) % TWO_32 == (33 * x + c) % TWO_32
  {
    var q := x / TWO_32;
    var t := (hash * 32) / TWO_32;
    assert x == q * TWO_32 + hash;
    var lhs := (hash * 32) % TWO_32 + hash + c;
    assert 33 * x + c == lhs + (33 * q + t) * TWO_32;
    SameResidue(lhs, 33 * q + t);
  }

  /** The string that ends at the first NUL decides the whole polynomial. */
  lemma {:induction false} WeightedSumPrefix(b: seq<byte>, d: seq<byte>, k: nat, n: nat)
    requires n <= k <= |b| && k <= |d| && b[..k] == d[..k]
    ensures WeightedSum(b, k, n) == WeightedSum(d, k, n)
  {
    if n == 0 {
    } else {
      WeightedSumPrefix(b, d, k, n - 1);
      assert b[n - 1] == b[..k][n - 1] == d[n - 1];
    }
  }

  lemma {:induction false} NoNul(b: seq<byte>)
    requires 0 !in b
    ensures NulIndex(b) == |b|
  {
    if b == [] {
    } else {
      assert b[0] in b && forall x :: x in b[1..] ==> x in b;
      NoNul(b[1..]);
    }
  }

  /** The hash one byte at a time, in numbers: behind a string without NUL the loop holds some 32-bit
      value x, which the table size reduces, and one more byte, taken as signed, makes 33 * x plus that
      byte of it, modulo 2^32. */
  lemma OneByteMore(b: seq<byte>, c: byte) returns (x: uint32)
    requires 0 !in b && c != 0
    ensures forall m: MaxSize :: Number(m, b) == x % m
    ensures forall m: MaxSize ::
      Number(m, b + [c]) == (33 * x + if c < 128 then c else c - 256) % 0x1_0000_0000 % m
  {
    var d, k := b + [c], |b|;
    NoNul(b);
    NoNul(d);
    HornerStep(d, k);
    WeightedSumPrefix(b, d, k, k);
    x := Polynomial(b, k) % TWO_32;
    var q := Polynomial(b, k) / TWO_32;
    SameResidue(33 * x + SignedChar(c), 33 * q);
    assert Polynomial(d, k + 1) == 33 * x + SignedChar(c) + 33 * q * TWO_32;
  }

  /** Where the loop starts, and its first step. */
  lemma FirstByte(m: MaxSize, c: byte)
    ensures Number(m, []) == 5381 % m
    ensures c != 0 ==> Number(m, [c]) == (177573 + if c < 128 then c else c - 256) % m
  {
    assert Polynomial([], 0) == 5381 by { assert Pow33(0) == 1; }
    if c != 0 {
      NoNul([c]);
      HornerStep([c], 0);
      assert Polynomial([c], 0) == 5381 by { assert Pow33(0) == 1; }
    }
  }

  /** Blocks that agree up to their first NUL share a block number, whatever follows it. */
  lemma SharedPrefixCollides(m: MaxSize, b: seq<byte>, d: seq<byte>)
    requires b[..NulIndex(b)] == d[..NulIndex(d)]
    ensures Number(m, b) == Number(m, d)
  {
    var k := NulIndex(b);
    assert k == |b[..k]| == |d[..NulIndex(d)]| == NulIndex(d);
    WeightedSumPrefix(b, d, k, k);
  }

  /** So no table size makes the numbering injective: every block starting with NUL has one number. */
  lemma CollisionsForEverySize(m: MaxSize, b: seq<byte>, d: seq<byte>)
    requires |b| > 0 && |d| > 0 && b[0] == 0 && d[0] == 0
    ensures Number(m, b) == Number(m, d) == 5381 % m
  {
    SharedPrefixCollides(m, b, d);
    assert Polynomial(b, 0) == 5381 by { assert Pow33(0) == 1; }
  }

  /** The hashing loop: runs over a NUL-terminated copy of b until it meets a NUL. */
  method HashFunction(m: MaxSize, b: seq<byte>) returns (n: uint32)
    ensures n == Number(m, b)
  {
    var str := b + [0];
    var hash: uint32 := 5381;
    var p := 0;
    while str[p] != 0
      invariant 0 <= p <= |b|
      invariant forall j :: 0 <= j < p ==> b[j] != 0
      invariant hash == Polynomial(b, p) % TWO_32
      decreases |b| - p
    {
      var c := SignedChar(str[p]);
      HornerStep(b, p);
      ShiftAddWraps(Polynomial(b, p), hash, c);
      hash := ((hash * 32) % TWO_32 + hash + c) % TWO_32;
      p := p + 1;
    }
    assert p == NulIndex(b);
    n := hash % m;
  }
}

/**
 * The bitmap macros SETBIT, CLRBIT and GETBIT, defined identically in
 * submit/webgraph.c:10-12 and submit/main.c:15-17: bit n of a byte array
 * lives in byte n / CHAR_BIT at position n % CHAR_BIT.
 */
module Bitmap {

  const CharBit: nat := 8

  /** The number of bytes the sources allocate for n bits: n / CHAR_BIT + 1. */
  function BytesFor(n: nat): (r: nat)
    ensures r * CharBit > n
  {
    n / CharBit + 1
  }

  function Mask(k: nat): (m: bv8)
    requires k < CharBit
  {
    (1 as bv8) << k
  }

  /** GETBIT: is bit n set, that is, is bit n % 8 of byte n / 8 a one? */
  function GetBit(a: seq<bv8>, n: nat): (r: bool)
    requires n / CharBit < |a|
    ensures r <==> (a[n / CharBit] >> (n % CharBit)) & 1 == 1
  {
    var k := n % CharBit;
    assert k == 0 || k == 1 || k == 2 || k == 3 || k == 4 || k == 5 || k == 6 || k == 7;
    a[n / CharBit] & Mask(k) != 0
  }

  /** SETBIT: the bitmap with bit n set; every other byte is unchanged. */
  function SetBit(a: seq<bv8>, n: nat): (r: seq<bv8>)
    requires n / CharBit < |a|
    ensures |r| == |a| && GetBit(r, n)
    ensures forall k :: 0 <= k < |a| && k != n / CharBit ==> r[k] == a[k]
  {
    MaskOr(a[n / CharBit], n % CharBit, n % CharBit);
    a[n / CharBit := a[n / CharBit] | Mask(n % CharBit)]
  }

  /** CLRBIT: the bitmap with bit n cleared; every other byte is unchanged. */
  function ClrBit(a: seq<bv8>, n: nat): (r: seq<bv8>)
    requires n / CharBit < |a|
    ensures |r| == |a| && !GetBit(r, n)
    ensures forall k :: 0 <= k < |a| && k != n / CharBit ==> r[k] == a[k]
  {
    MaskAndNot(a[n / CharBit], n % CharBit, n % CharBit);
    a[n / CharBit := a[n / CharBit] & !Mask(n % CharBit)]
  }

  /** Or-ing in a mask sets exactly that bit of the byte. */
  lemma MaskOr(b: bv8, i: nat, j: nat)
    requires i < CharBit && j < CharBit
    ensures ((b | Mask(i)) & Mask(j) != 0) <==> (i == j || b & Mask(j) != 0)
  {
    assert i == 0 || i == 1 || i == 2 || i == 3 || i == 4 || i == 5 || i == 6 || i == 7;
    assert j == 0 || j == 1 || j == 2 || j == 3 || j == 4 || j == 5 || j == 6 || j == 7;
  }

  /** And-ing with a complemented mask clears exactly that bit of the byte. */
  lemma MaskAndNot(b: bv8, i: nat, j: nat)
    requires i < CharBit && j < CharBit
    ensures ((b & !Mask(i)) & Mask(j) != 0) <==> (i != j && b & Mask(j) != 0)
  {
    assert i == 0 || i == 1 || i == 2 || i == 3 || i == 4 || i == 5 || i == 6 || i == 7;
    assert j == 0 || j == 1 || j == 2 || j == 3 || j == 4 || j == 5 || j == 6 || j == 7;
  }

  /** SETBIT sets bit n and leaves every other bit as it was. */
  lemma GetSetBit(a: seq<bv8>, n: nat, m: nat)
    requires n / CharBit < |a| && m / CharBit < |a|
    ensures GetBit(SetBit(a, n), m) <==> (m == n || GetBit(a, m))
  {
    if m / CharBit == n / CharBit {
      MaskOr(a[n / CharBit], n % CharBit, m % CharBit);
    }
  }

  /** CLRBIT clears bit n and leaves every other bit as it was. */
  lemma GetClrBit(a: seq<bv8>, n: nat, m: nat)
    requires n / CharBit < |a| && m / CharBit < |a|
    ensures GetBit(ClrBit(a, n), m) <==> (m != n && GetBit(a, m))
  {
    if m / CharBit == n / CharBit {
      MaskAndNot(a[n / CharBit], n % CharBit, m % CharBit);
    }
  }

  /** Every bit of a byte 0xFF is set (the memset of submit/webgraph.c:83). */
  lemma GetBitOfFull(a: seq<bv8>, n: nat)
    requires n / CharBit < |a|
    requires a[n / CharBit] == 0xFF
    ensures GetBit(a, n)
  {
  }

  /** No bit of a zero byte is set (the zero initialiser of submit/main.c:30). */
  lemma GetBitOfZero(a: seq<bv8>, n: nat)
    requires n / CharBit < |a|
    requires a[n / CharBit] == 0
    ensures !GetBit(a, n)
  {
  }

  /** SETBIT on an array, in place. */
  method SetBitIn(a: array<bv8>, n: nat)
    requires n / CharBit < a.Length
    modifies a
    ensures a[..] == SetBit(old(a[..]), n)
  {
    a[n / CharBit] := a[n / CharBit] | Mask(n % CharBit);
  }

  /** CLRBIT on an array, in place. */
  method ClrBitIn(a: array<bv8>, n: nat)
    requires n / CharBit < a.Length
    modifies a
    ensures a[..] == ClrBit(old(a[..]), n)
  {
    a[n / CharBit] := a[n / CharBit] & !Mask(n % CharBit);
  }
}

/**
  Where the constants of SHA-256 come from (FIPS 180-4, sections 4.2.2 and 5.3.3): the first 32 bits
  of the fractions of the cube roots, and for the initial hash value of the square roots, of primes.
 */
module Sha256Roots {
  import opened Sha256
  import opened Sha256Vectors
  import opened Widths

  const PRIMES: seq<nat> :=
    [2, 3, 5, 7, 11, 13, 17, 19, 23, 29, 31, 37, 41, 43, 47, 53]
    + [59, 61, 67, 71, 73, 79, 83, 89, 97, 101, 103, 107, 109, 113, 127, 131]
    + [137, 139, 149, 151, 157, 163, 167, 173, 179, 181, 191, 193, 197, 199, 211, 223]
    + [227, 229, 233, 239, 241, 251, 257, 263, 269, 271, 277, 281, 283, 293, 307, 311]

  function Square(x: nat): nat {
    x * x
  }

  function Cube(x: nat): nat {
    x * x * x
  }

  /** The integer part of a cube root. */
  function CubeRoot(p: nat): (c: nat)
    requires p < 343
    ensures Cube(c) <= p < Cube(c + 1)
  {
    if p < 1 then 0 else if p < 8 then 1 else if p < 27 then 2 else if p < 64 then 3
    else if p < 125 then 4 else if p < 216 then 5 else 6
  }

  function SquareRoot(p: nat): (c: nat)
    requires p < 25
    ensures Square(c) <= p < Square(c + 1)
  {
    if p < 1 then 0 else if p < 4 then 1 else if p < 9 then 2 else if p < 16 then 3 else 4
  }

  /** k is the first 32 bits of the fraction of the cube root of p. */
  predicate StartsCubeRoot(k: nat, p: nat) {
    p < 343 && k < TWO_32
    && Cube(CubeRoot(p) * TWO_32 + k) <= p * Cube(TWO_32) < Cube(CubeRoot(p) * TWO_32 + k + 1)
  }

  predicate StartsSquareRoot(k: nat, p: nat) {
    p < 25 && k < TWO_32
    && Square(SquareRoot(p) * TWO_32 + k) <= p * Square(TWO_32) < Square(SquareRoot(p) * TWO_32 + k + 1)
  }

  lemma CubeRoots0(t: nat)
    requires 0 <= t < 8
    ensures StartsCubeRoot(K[t] as nat, PRIMES[t])
  {
    Constants0();
    assert t in {0, 1, 2, 3, 4, 5, 6, 7};
  }

  lemma CubeRoots8(t: nat)
    requires 8 <= t < 16
    ensures StartsCubeRoot(K[t] as nat, PRIMES[t])
  {
    Constants0();
    assert t in {8, 9, 10, 11, 12, 13, 14, 15};
  }

  lemma CubeRoots16(t: nat)
    requires 16 <= t < 24
    ensures StartsCubeRoot(K[t] as nat, PRIMES[t])
  {
    Constants16();
    assert t in {16, 17, 18, 19, 20, 21, 22, 23};
  }

  lemma CubeRoots24(t: nat)
    requires 24 <= t < 32
    ensures StartsCubeRoot(K[t] as nat, PRIMES[t])
  {
    Constants16();
    assert t in {24, 25, 26, 27, 28, 29, 30, 31};
  }

  lemma CubeRoots32(t: nat)
    requires 32 <= t < 40
    ensures StartsCubeRoot(K[t] as nat, PRIMES[t])
  {
    Constants32();
    assert t in {32, 33, 34, 35, 36, 37, 38, 39};
  }

  lemma CubeRoots40(t: nat)
    requires 40 <= t < 48
    ensures StartsCubeRoot(K[t] as nat, PRIMES[t])
  {
    Constants32();
    assert t in {40, 41, 42, 43, 44, 45, 46, 47};
  }

  lemma CubeRoots48(t: nat)
    requires 48 <= t < 56
    ensures StartsCubeRoot(K[t] as nat, PRIMES[t])
  {
    Constants48();
    assert t in {48, 49, 50, 51, 52, 53, 54, 55};
  }

  lemma CubeRoots56(t: nat)
    requires 56 <= t < 64
    ensures StartsCubeRoot(K[t] as nat, PRIMES[t])
  {
    Constants48();
    assert t in {56, 57, 58, 59, 60, 61, 62, 63};
  }

  lemma ConstantsAreCubeRoots(t: nat)
    requires t < 64
    ensures StartsCubeRoot(K[t] as nat, PRIMES[t])
  {
    hide StartsCubeRoot;
    if t < 8 {
      CubeRoots0(t);
    } else if t < 16 {
      CubeRoots8(t);
    } else if t < 24 {
      CubeRoots16(t);
    } else if t < 32 {
      CubeRoots24(t);
    } else if t < 40 {
      CubeRoots32(t);
    } else if t < 48 {
      CubeRoots40(t);
    } else if t < 56 {
      CubeRoots48(t);
    } else {
      CubeRoots56(t);
    }
  }

  lemma InitialHashIsSquareRoots(t: nat)
    requires t < 8
    ensures StartsSquareRoot(H0[t] as nat, PRIMES[t])
  {
    assert t in {0, 1, 2, 3, 4, 5, 6, 7};
  }
}

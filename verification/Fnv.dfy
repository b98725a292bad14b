/** The 64-bit FNV-1a hash (section 2 of draft-eastlake-fnv) that marks dirty blocks. */
module Fnv {
  import opened Bytes

  const OFFSET_BASIS: nat := 0xcbf29ce484222325
  const PRIME: nat := 0x100000001b3
  const MODULUS: nat := 0x1_0000_0000_0000_0000

  function Xor(a: nat, b: nat): nat {
    if a == 0 && b == 0 then 0
    else 2 * Xor(a / 2, b / 2) + (if a % 2 == b % 2 then 0 else 1)
  }

  function Mix(h: nat, b: byte): nat {
    (Xor(h, b) * PRIME) % MODULUS
  }

  /** The state after hashing `s` from state `h`: xor the byte in, then multiply. */
  function Absorb(h: nat, s: seq<byte>): nat {
    if s == [] then h else Mix(Absorb(h, s[..|s| - 1]), s[|s| - 1])
  }

  function Sum64(s: seq<byte>): nat {
    Absorb(OFFSET_BASIS, s)
  }

  lemma {:induction false} XorCancels(a: nat, b: nat)
    ensures Xor(Xor(a, b), b) == a
    decreases a + b
  {
    if a != 0 || b != 0 {
      XorCancels(a / 2, b / 2);
    }
  }

  lemma {:induction false} XorCommutes(a: nat, b: nat)
    ensures Xor(a, b) == Xor(b, a)
    decreases a + b
  {
    if a != 0 || b != 0 {
      XorCommutes(a / 2, b / 2);
    }
  }

  function Pow2(k: nat): nat {
    if k == 0 then 1 else 2 * Pow2(k - 1)
  }

  lemma {:induction false} PowersOfTwo(k: nat)
    ensures Pow2(k + 8) == 256 * Pow2(k)
  {
    assert Pow2(k + 2) == 2 * Pow2(k + 1);
    assert Pow2(k + 4) == 2 * Pow2(k + 3);
    assert Pow2(k + 6) == 2 * Pow2(k + 5);
    assert Pow2(k + 8) == 2 * Pow2(k + 7);
  }

  lemma {:induction false} XorStaysBelow(a: nat, b: nat, k: nat)
    requires a < Pow2(k) && b < Pow2(k)
    ensures Xor(a, b) < Pow2(k)
    decreases k
  {
    if k != 0 && (a != 0 || b != 0) {
      XorStaysBelow(a / 2, b / 2, k - 1);
    }
  }

  lemma XorIs64Bit(h: nat, b: byte)
    requires h < MODULUS
    ensures Xor(h, b) < MODULUS
  {
    PowersOfTwo(0);
    PowersOfTwo(8);
    PowersOfTwo(16);
    PowersOfTwo(24);
    PowersOfTwo(32);
    PowersOfTwo(40);
    PowersOfTwo(48);
    PowersOfTwo(56);
    XorStaysBelow(h, b, 64);
  }

  /** Multiplying by the odd prime is injective modulo 2^64, because the prime has an inverse. */
  lemma PrimeIsInvertible(x: nat, y: nat)
    requires x < MODULUS && y < MODULUS
    requires (x * PRIME) % MODULUS == (y * PRIME) % MODULUS
    ensures x == y
  {
    var t := x * PRIME / MODULUS - y * PRIME / MODULUS;
    assert (x - y) * PRIME == t * MODULUS;
    var inverse := 0xce965057aff6957b;
    var carry := 0xce9650590f;
    assert PRIME * inverse == 1 + carry * MODULUS;
    calc {
      x - y;
      (x - y) * (PRIME * inverse - carry * MODULUS);
      ((x - y) * PRIME) * inverse - (x - y) * carry * MODULUS;
      (t * inverse - (x - y) * carry) * MODULUS;
    }
    assert t * inverse - (x - y) * carry == 0;
  }

  /** One round keeps different states apart, and keeps different bytes apart. */
  lemma MixIsInjective(h: nat, g: nat, b: byte, c: byte)
    requires h < MODULUS && g < MODULUS
    requires Mix(h, b) == Mix(g, c)
    ensures b == c ==> h == g
    ensures h == g ==> b == c
  {
    XorIs64Bit(h, b);
    XorIs64Bit(g, c);
    PrimeIsInvertible(Xor(h, b), Xor(g, c));
    XorCancels(h, b);
    XorCancels(g, c);
    XorCommutes(h, b);
    XorCommutes(g, c);
    XorCancels(b, h);
    XorCancels(c, g);
  }

  lemma {:induction false} AbsorbIs64Bit(h: nat, s: seq<byte>)
    requires h < MODULUS
    ensures Absorb(h, s) < MODULUS
  {
  }

  predicate DifferOnlyAt(s: seq<byte>, t: seq<byte>, p: nat) {
    && |s| == |t|
    && p < |s|
    && s[p] != t[p]
    && forall i | 0 <= i < |s| && i != p :: s[i] == t[i]
  }

  /** A change of exactly one byte always changes the hash. */
  lemma {:induction false} OneByteChangeIsDetected(s: seq<byte>, t: seq<byte>, p: nat)
    requires DifferOnlyAt(s, t, p)
    ensures Sum64(s) != Sum64(t)
    decreases |s|
  {
    var n := |s| - 1;
    var s', t' := s[..n], t[..n];
    AbsorbIs64Bit(OFFSET_BASIS, s');
    AbsorbIs64Bit(OFFSET_BASIS, t');
    if p == n {
      assert s' == t';
    } else {
      OneByteChangeIsDetected(s', t', p);
    }
    if Sum64(s) == Sum64(t) {
      MixIsInjective(Absorb(OFFSET_BASIS, s'), Absorb(OFFSET_BASIS, t'), s[n], t[n]);
    }
  }

  // ---------------------------------------------------------------- against the specification

  /** The bytes are hashed from the first to the last. */
  lemma {:induction false} HashesInOrder(h: nat, a: seq<byte>, b: seq<byte>)
    ensures Absorb(h, a + b) == Absorb(Absorb(h, a), b)
    decreases |b|
  {
    if b == [] {
      assert a + b == a;
    } else {
      assert (a + b)[..|a + b| - 1] == a + b[..|b| - 1];
      HashesInOrder(h, a, b[..|b| - 1]);
    }
  }

  lemma XorStep(a: nat, b: nat)
    ensures Xor(a, b) == if a == 0 && b == 0 then 0 else 2 * Xor(a / 2, b / 2) + (if a % 2 == b % 2 then 0 else 1)
  {
  }

  /** Xor with a byte changes the low byte only. */
  lemma {:induction false} XorLow(q: nat, r: nat, b: nat, k: nat)
    requires r < Pow2(k) && b < Pow2(k)
    ensures Xor(Pow2(k) * q + r, b) == Pow2(k) * q + Xor(r, b)
    decreases k
  {
    if k == 0 {
      XorZero(q);
    } else {
      var p := Pow2(k - 1);
      assert Pow2(k) * q == 2 * (p * q);
      assert (Pow2(k) * q + r) / 2 == p * q + r / 2 && (Pow2(k) * q + r) % 2 == r % 2;
      XorLow(q, r / 2, b / 2, k - 1);
    }
  }

  lemma {:induction false} XorZero(a: nat)
    ensures Xor(a, 0) == a
  {
    if a > 0 {
      XorZero(a / 2);
    }
  }

  /** The hashes that draft-eastlake-fnv lists for no bytes and for the byte "a". */
  lemma TestVectors()
    ensures Sum64([]) == 0xcbf29ce484222325
    ensures Sum64([0x61]) == 0xaf63dc4c8601ec8c
  {
    assert [0x61 as byte][..0] == [];
    assert Pow2(8) == 256;
    hide Xor;
    XorStep(0x25, 0x61);
    XorStep(0x12, 0x30);
    XorStep(0x9, 0x18);
    XorStep(0x4, 0xc);
    XorStep(0x2, 0x6);
    XorStep(0x1, 0x3);
    XorStep(0x0, 0x1);
    XorStep(0, 0);
    XorLow(0xcbf29ce4842223, 0x25, 0x61, 8);
  }
}

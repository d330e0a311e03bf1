/** The dotted-decimal to 32-bit conversion `ipToLong` (index.js:25-27).

    The source splits the address on '.', parses every piece with `parseInt`
    and folds the pieces with `(acc << 8) + octet`, finally applying `>>> 0`.
    The model takes the already-parsed pieces (non-negative integers) and
    spells out the JavaScript operators: `<<` works on 32-bit two's-complement
    integers, `+` on the resulting number, and `>>> 0` reinterprets as unsigned. */
module IpCodec {

  const TWO31: int := 0x8000_0000
  const TWO32: int := 0x1_0000_0000

  /** The octets of an address after `split('.')` and `parseInt`. */
  type Octets = seq<nat>

  /** ECMAScript ToInt32: the two's-complement reading of x modulo 2^32. */
  function ToInt32(x: int): (r: int)
    ensures -TWO31 <= r < TWO31
    ensures (r - x) % TWO32 == 0
  {
    var m := x % TWO32;
    if m >= TWO31 then m - TWO32 else m
  }

  /** ECMAScript ToUint32, which is what `x >>> 0` computes. */
  function ToUint32(x: int): (r: int)
    ensures 0 <= r < TWO32
    ensures (r - x) % TWO32 == 0
  {
    x % TWO32
  }

  /** `acc << 8`: both the operand and the result are 32-bit signed. */
  function ShiftLeft8(acc: int): (r: int)
    ensures -TWO31 <= r < TWO31
    ensures (r - acc * 256) % TWO32 == 0
  {
    var a := ToInt32(acc);
    var r := ToInt32(a * 256);
    var k1 := (r - a * 256) / TWO32;
    var k2 := (a - acc) / TWO32;
    assert r - a * 256 == k1 * TWO32;
    assert a - acc == k2 * TWO32;
    assert r - acc * 256 == (k1 + k2 * 256) * TWO32;
    DivShift(0, k1 + k2 * 256);
    r
  }

  /** The `reduce` of index.js:26 before the final `>>> 0`, left to right from 0. */
  function JsFold(s: Octets): (r: int)
    ensures r >= -TWO31
    ensures |s| > 0 ==> r < TWO31 + s[|s| - 1]
  {
    if |s| == 0 then 0 else ShiftLeft8(JsFold(s[..|s| - 1])) + s[|s| - 1]
  }

  /** The arithmetic reading of the fold: every octet is one base-256 digit,
      most significant first, with no wrap-around at all. */
  function Horner(s: Octets): nat
  {
    if |s| == 0 then 0 else Horner(s[..|s| - 1]) * 256 + s[|s| - 1]
  }

  /** `ipToLong`: an unsigned 32-bit number for any count of non-negative
      octets, namely the base-256 value of the octets reduced modulo 2^32. */
  function IpToLong(s: Octets): (r: int)
    ensures 0 <= r < TWO32
    ensures r == Horner(s) % TWO32
  {
    FoldCongruent(s);
    ModOfCongruent(JsFold(s), Horner(s));
    ToUint32(JsFold(s))
  }

  /** Two integers that differ by a multiple of 2^32 leave the same remainder. */
  lemma ModOfCongruent(x: int, y: int)
    requires (x - y) % TWO32 == 0
    ensures x % TWO32 == y % TWO32
  {
    var k := (x - y) / TWO32;
    assert x - y == k * TWO32;
    assert x == y + k * TWO32;
    assert x / TWO32 == y / TWO32 + k && x % TWO32 == y % TWO32 by {
      DivShift(y, k);
    }
  }

  lemma DivShift(y: int, k: int)
    ensures (y + k * TWO32) % TWO32 == y % TWO32
    ensures (y + k * TWO32) / TWO32 == y / TWO32 + k
  {
    var q := y / TWO32;
    var m := y % TWO32;
    assert y == q * TWO32 + m;
    assert y + k * TWO32 == (q + k) * TWO32 + m;
  }

  /** The wrapping JavaScript fold and the exact base-256 value never drift
      apart by anything but a multiple of 2^32. */
  lemma {:induction false} FoldCongruent(s: Octets)
    ensures (JsFold(s) - Horner(s)) % TWO32 == 0
  {
    if |s| > 0 {
      var p := s[..|s| - 1];
      var o := s[|s| - 1];
      FoldCongruent(p);
      var j := JsFold(p);
      var h := Horner(p);
      var sh := ShiftLeft8(j);
      // sh == j*256 + a*2^32 and j == h + b*2^32
      var a := (sh - j * 256) / TWO32;
      var b := (j - h) / TWO32;
      assert sh - j * 256 == a * TWO32;
      assert j - h == b * TWO32;
      assert (sh + o) - (h * 256 + o) == (a + b * 256) * TWO32;
      DivShift(0, a + b * 256);
    }
  }

  /** A well-formed dotted quad: exactly four octets, each at most 255. */
  predicate IsQuad(s: Octets)
  {
    |s| == 4 && forall i :: 0 <= i < 4 ==> s[i] <= 255
  }

  /** On a well-formed quad `ipToLong` is the big-endian IPv4 value. */
  lemma QuadValue(s: Octets)
    requires IsQuad(s)
    ensures IpToLong(s) == s[0] * 0x100_0000 + s[1] * 0x1_0000 + s[2] * 0x100 + s[3]
  {
    assert s[..1][..0] == [];
    assert s[..2][..1] == s[..1];
    assert s[..3][..2] == s[..2];
    assert s[..4][..3] == s[..3];
    assert s[..4] == s;
    assert Horner(s[..1]) == s[0];
    assert Horner(s[..2]) == s[0] * 256 + s[1];
    assert Horner(s[..3]) == (s[0] * 256 + s[1]) * 256 + s[2];
    assert Horner(s) == ((s[0] * 256 + s[1]) * 256 + s[2]) * 256 + s[3];
  }

  /** Division by 256 recovers the digit and the rest of a base-256 number. */
  lemma SplitDigit(x: int, d: int)
    requires 0 <= d < 256
    ensures (x * 256 + d) / 256 == x && (x * 256 + d) % 256 == d
  {
  }

  /** Distinct well-formed quads give distinct numbers, so the table keys
      identify addresses exactly. */
  lemma QuadInjective(s: Octets, t: Octets)
    requires IsQuad(s) && IsQuad(t)
    requires IpToLong(s) == IpToLong(t)
    ensures s == t
  {
    QuadValue(s);
    QuadValue(t);
    var v := IpToLong(s);
    var s2 := (s[0] * 256 + s[1]) * 256 + s[2];
    var t2 := (t[0] * 256 + t[1]) * 256 + t[2];
    assert v == s2 * 256 + s[3] == t2 * 256 + t[3];
    SplitDigit(s2, s[3]);
    SplitDigit(t2, t[3]);
    var s1 := s[0] * 256 + s[1];
    var t1 := t[0] * 256 + t[1];
    SplitDigit(s1, s[2]);
    SplitDigit(t1, t[2]);
    SplitDigit(s[0], s[1]);
    SplitDigit(t[0], t[1]);
  }
}

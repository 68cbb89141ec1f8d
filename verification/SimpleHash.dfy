/** The 32-bit string hash of src/utils/helpers.js and the IP-hash index built on it. */
module SimpleHash {

  /** A UTF-16 code unit, as charCodeAt returns it. */
  type CodeUnit = c: nat | c < 0x1_0000

  const WORD: int := 0x1_0000_0000

  /** The signed 32-bit residue that a bitwise operator works on. */
  function ToInt32(x: int): (r: int)
    ensures -0x8000_0000 <= r < 0x8000_0000
  {
    var m := x % WORD;
    if m >= 0x8000_0000 then m - WORD else m
  }

  /** Equal residues have equal 32-bit values. */
  lemma ToInt32Congruent(x: int, k: int)
    ensures ToInt32(x + k * WORD) == ToInt32(x)
  {
    assert (x + k * WORD) % WORD == x % WORD;
  }

  lemma ToInt32Residue(x: int) returns (k: int)
    ensures ToInt32(x) == x + k * WORD
  {
    k := if x % WORD >= 0x8000_0000 then -(x / WORD) - 1 else -(x / WORD);
  }

  function Pow31(n: nat): nat {
    if n == 0 then 1 else 31 * Pow31(n - 1)
  }

  /** The sum of s[i] * 31^(|s| - 1 - i). */
  function Polynomial(s: seq<CodeUnit>): nat {
    if s == [] then 0 else s[0] * Pow31(|s| - 1) + Polynomial(s[1..])
  }

  lemma {:induction false} PolynomialSnoc(s: seq<CodeUnit>, c: CodeUnit)
    ensures Polynomial(s + [c]) == 31 * Polynomial(s) + c
  {
    if s == [] {
      assert (s + [c])[1..] == [];
    } else {
      assert (s + [c])[1..] == s[1..] + [c];
      PolynomialSnoc(s[1..], c);
      assert s[0] * (31 * Pow31(|s| - 1)) == 31 * (s[0] * Pow31(|s| - 1));
    }
  }

  /** ((hash << 5) - hash) + c, folded back to 32 bits. */
  function Mix(hash: int, c: CodeUnit): int {
    ToInt32(ToInt32(hash * 32) - hash + c)
  }

  /** The wrapping loop step is 31 * p + c modulo 2^32. */
  lemma MixIsHorner(p: int, c: CodeUnit)
    ensures Mix(ToInt32(p), c) == ToInt32(31 * p + c)
  {
    var k := ToInt32Residue(p);
    var l := ToInt32Residue(ToInt32(p) * 32);
    assert ToInt32(ToInt32(p) * 32) - ToInt32(p) + c == 31 * p + c + (31 * k + l) * WORD;
    ToInt32Congruent(31 * p + c, 31 * k + l);
  }

  function Abs(x: int): nat { if x < 0 then -x else x }

  /** h is the sum of s[i] * 31^(|s| - 1 - i) or its negative, modulo 2^32; up to 2^31 there is one such number. */
  ghost predicate IsHash(s: seq<CodeUnit>, h: nat) {
    h <= 0x8000_0000
    && ((Polynomial(s) - h) % 0x1_0000_0000 == 0 || (Polynomial(s) + h) % 0x1_0000_0000 == 0)
  }

  lemma ResidueOf(a: int, k: int, r: int)
    requires r == a + k * WORD
    ensures (a - r) % WORD == 0
  {
    assert a - r == -k * WORD;
  }

  lemma HashIsResidue(s: seq<CodeUnit>)
    ensures IsHash(s, Abs(ToInt32(Polynomial(s))))
  {
    var k := ToInt32Residue(Polynomial(s));
    ResidueOf(Polynomial(s), k, ToInt32(Polynomial(s)));
  }

  /** A number in range that differs from a by a multiple of 2^32 is the remainder of a. */
  lemma InRange(a: int, h: nat)
    requires h <= 0x8000_0000 && (a - h) % WORD == 0
    ensures h == a % WORD
  {
    var k := (a - h) / WORD;
    assert a == k * WORD + h;
  }

  lemma RemainderIs(a: int, q: int, r: int)
    requires a == q * WORD + r && 0 <= r < WORD
    ensures a % WORD == r
  {
  }

  lemma Opposite(a: int)
    ensures (-a) % WORD == if a % WORD == 0 then 0 else WORD - a % WORD
  {
    var q, r := a / WORD, a % WORD;
    if r == 0 { RemainderIs(-a, -q, 0); } else { RemainderIs(-a, -q - 1, WORD - r); }
  }

  lemma OneOfTwo(a: int, h: nat)
    requires h <= 0x8000_0000 && ((a - h) % WORD == 0 || (a + h) % WORD == 0)
    ensures h == a % WORD || h == (if a % WORD == 0 then 0 else WORD - a % WORD)
  {
    if (a - h) % WORD == 0 {
      InRange(a, h);
    } else {
      Opposite(a + h);
      assert -a - h == -(a + h);
      InRange(-a, h);
      Opposite(a);
    }
  }

  lemma HashIsUnique(s: seq<CodeUnit>, h: nat, g: nat)
    requires IsHash(s, h) && IsHash(s, g)
    ensures h == g
  {
    OneOfTwo(Polynomial(s), h);
    OneOfTwo(Polynomial(s), g);
  }

  /** The loop computes the absolute value of the signed 32-bit residue of the polynomial, for every string. */
  method Hash(s: seq<CodeUnit>) returns (h: nat)
    ensures h == Abs(ToInt32(Polynomial(s)))
    ensures h <= 0x8000_0000 && IsHash(s, h)
  {
    var hash := 0;
    for i := 0 to |s|
      invariant hash == ToInt32(Polynomial(s[..i]))
    {
      assert s[..i + 1] == s[..i] + [s[i]];
      PolynomialSnoc(s[..i], s[i]);
      MixIsHorner(Polynomial(s[..i]), s[i]);
      hash := ToInt32(hash * 32) - hash + s[i];
      hash := ToInt32(hash);
    }
    assert s[..|s|] == s;
    HashIsResidue(s);
    h := Abs(hash);
  }

  /** The index the IP-hash strategy uses for a client address. */
  function IpIndex(clientIp: seq<CodeUnit>, n: nat): (k: nat)
    requires n > 0
    ensures k < n
  {
    Abs(ToInt32(Polynomial(clientIp))) % n
  }

  /** The index is the remainder of the hash. */
  lemma IpIndexIsRemainder(clientIp: seq<CodeUnit>, n: nat, h: nat)
    requires n > 0 && IsHash(clientIp, h)
    ensures IpIndex(clientIp, n) == h % n
  {
    HashIsResidue(clientIp);
    HashIsUnique(clientIp, h, Abs(ToInt32(Polynomial(clientIp))));
  }

  method SelectByIp(clientIp: seq<CodeUnit>, n: nat) returns (k: nat)
    requires n > 0
    ensures k == IpIndex(clientIp, n) < n
  {
    var h := Hash(clientIp);
    k := h % n;
  }
}

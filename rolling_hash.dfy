/**
 * The polynomial rolling hash of vcdiff.js (`diffable.RollingHash`).
 *
 * A window `s` of length L hashes to
 *   sum over i < L of code(s[i]) * base^(L-1-i), reduced modulo `primeMod`;
 * `NextHash` slides the window one character to the right in constant time.
 */
module Rolling {
  import opened ModArith

  /** The character code JavaScript's `charCodeAt` yields. */
  function Code(c: char): nat
  {
    c as int
  }

  function Pow(b: int, k: nat): int
  {
    if k == 0 then 1 else b * Pow(b, k - 1)
  }

  /** The unreduced polynomial: code(s[i]) weighted by b^(|s|-1-i). */
  function Poly(s: string, b: int): int
  {
    if |s| == 0 then 0 else Code(s[0]) * Pow(b, |s| - 1) + Poly(s[1..], b)
  }

  /** The hash of a window: the polynomial reduced into [0, m). */
  function PolyHash(s: string, b: int, m: int): (r: int)
    requires m >= 1
    ensures 0 <= r < m
  {
    Poly(s, b) % m
  }

  /**
   * The value `moduloExp(b, p, m)` returns: the loop at vcdiff.js:40-42 runs
   * max(p, 0) times, so for p <= 0 it returns 1 without reducing it.
   */
  function PowMod(b: int, p: int, m: int): int
    requires m >= 1
  {
    if p <= 0 then 1 else Pow(b, p) % m
  }

  lemma PowNonNegative(b: int, k: nat)
    requires b >= 0
    ensures Pow(b, k) >= 0
  {
    if k > 0 {
      PowNonNegative(b, k - 1);
    }
  }

  /** Appending a character multiplies the polynomial by the base and adds the code. */
  lemma {:induction false} PolySnoc(t: string, c: char, b: int)
    ensures Poly(t + [c], b) == Poly(t, b) * b + Code(c)
  {
    if |t| == 0 {
      assert t + [c] == [c];
      assert [c][1..] == [];
    } else {
      var u := t + [c];
      assert u[0] == t[0] && u[1..] == t[1..] + [c];
      PolySnoc(t[1..], c, b);
      var p := Pow(b, |t| - 1);
      calc {
        Poly(u, b);
        Code(t[0]) * Pow(b, |t|) + Poly(t[1..] + [c], b);
        Code(t[0]) * (b * p) + (Poly(t[1..], b) * b + Code(c));
        (Code(t[0]) * p + Poly(t[1..], b)) * b + Code(c);
        Poly(t, b) * b + Code(c);
      }
    }
  }

  /** `PowMod` agrees with the true power modulo m. */
  lemma PowModCongruent(b: int, p: nat, m: int)
    requires m >= 1
    ensures PowMod(b, p, m) % m == Pow(b, p) % m
  {
    if p > 0 {
      var x := Pow(b, p);
      ModAddLeft(x, 0, m);
      assert x % m + 0 == x % m && x + 0 == x;
    }
  }

  /**
   * The incremental update of vcdiff.js:68-71, done in Euclidean arithmetic,
   * lands exactly on the hash of the shifted window.
   */
  lemma RollStep(s: string, c: char, b: int, m: int)
    requires |s| >= 1 && m >= 1
    ensures ((PolyHash(s, b, m) - Code(s[0]) * PowMod(b, |s| - 1, m)) * b + Code(c)) % m
            == PolyHash(s[1..] + [c], b, m)
  {
    var p, pw := PowMod(b, |s| - 1, m), Pow(b, |s| - 1);
    var c0, whole := Code(s[0]), Poly(s, b);
    var target := (whole - c0 * pw) * b + Code(c);
    assert target == Poly(s[1..] + [c], b) by {
      PolySnoc(s[1..], c, b);
    }
    var q := whole / m;
    assert PolyHash(s, b, m) == whole - q * m;
    PowModCongruent(b, |s| - 1, m);
    CongruentDiff(p, pw, m);
    var d := p / m - pw / m;
    Regroup(whole, q, m, c0, pw, d, b, Code(c));
    ModShift(target, (-q - c0 * d) * b, m);
  }

  /** The ring identity behind `RollStep`, kept apart so the solver sees only it. */
  lemma Regroup(w: int, q: int, m: int, c0: int, pw: int, d: int, b: int, cc: int)
    ensures (w - q * m - c0 * (pw + d * m)) * b + cc
            == ((w - c0 * pw) * b + cc) + ((-q - c0 * d) * b) * m
  {
  }

  /** One step of the accumulator loop of `hash` (vcdiff.js:53-56). */
  lemma HashStep(s: string, i: nat, e: int, acc: int, b: int, m: int)
    requires i < |s| && m >= 1 && b >= 0
    requires e == PowMod(b, |s| - 1 - i, m)
    requires acc == (Poly(s, b) - Poly(s[i..], b)) % m
    ensures Code(s[i]) * e >= 0 && acc + (Code(s[i]) * e) % m >= 0
    ensures (acc + (Code(s[i]) * e) % m) % m == (Poly(s, b) - Poly(s[i + 1..], b)) % m
  {
    var c, pw := Code(s[i]), Pow(b, |s| - 1 - i);
    PowNonNegative(b, |s| - 1 - i);
    PowModCongruent(b, |s| - 1 - i, m);
    assert e >= 0;
    assert c * e >= 0;
    var x := Poly(s, b) - Poly(s[i..], b);
    assert x + c * pw == Poly(s, b) - Poly(s[i + 1..], b) by {
      assert s[i..][0] == s[i] && s[i..][1..] == s[i + 1..];
      assert Poly(s[i..], b) == c * pw + Poly(s[i + 1..], b);
    }
    assert (c * e) % m == (c * pw) % m by {
      ModMulRight(c, e, m);
      ModMulRight(c, pw, m);
    }
    ModAddLeft(x, (c * e) % m, m);
    ModAddLeft(c * e, x, m);
    ModAddLeft(c * pw, x, m);
  }

  class RollingHash {
    var primeBase: int
    var primeMod: int
    var lastPower: int
    var lastString: string
    var lastHash: int

    /** The defaults of vcdiff.js:22-28: base 257, modulus 1000000007, no window yet. */
    constructor ()
      ensures primeBase == 257 && primeMod == 1000000007
      ensures lastPower == 0 && lastString == "" && lastHash == 0
      ensures Valid()
    {
      primeBase := 257;
      primeMod := 1000000007;
      lastPower := 0;
      lastString := "";
      lastHash := 0;
    }

    /** The configuration the model covers: a non-negative base, a positive modulus. */
    predicate Configured()
      reads this
    {
      primeBase >= 0 && primeMod >= 1
    }

    /** The cached window, hash and power agree with each other. */
    ghost predicate Valid()
      reads this
    {
      Configured() &&
      lastHash == PolyHash(lastString, primeBase, primeMod) &&
      (|lastString| >= 1 ==> lastPower == PowMod(primeBase, |lastString| - 1, primeMod))
    }

    /** `moduloExp`: base^power mod modulo by repeated modular multiplication. */
    static method ModuloExp(base: int, power: int, modulo: int) returns (r: int)
      requires base >= 0 && modulo >= 1
      ensures power <= 0 ==> r == 1
      ensures power > 0 ==> r == Pow(base, power) % modulo
    {
      r := 1;
      var i := 0;
      while i < power
        invariant 0 <= i && (i == 0 || i <= power)
        invariant i == 0 ==> r == 1
        invariant i > 0 ==> r == Pow(base, i) % modulo
      {
        PowNonNegative(base, i);
        assert base * r >= 0;
        ModMulRight(base, Pow(base, i), modulo);
        r := JsRem(base * r, modulo);
        i := i + 1;
      }
    }

    /** `hash`: hashes a whole window and caches it for `NextHash`. */
    method Hash(toHash: string) returns (h: int)
      requires Configured()
      modifies this`lastPower, this`lastString, this`lastHash
      ensures primeBase == old(primeBase) && primeMod == old(primeMod)
      ensures h == PolyHash(toHash, primeBase, primeMod)
      ensures lastString == toHash && lastHash == h
      ensures lastPower == PowMod(primeBase, |toHash| - 1, primeMod)
      ensures Valid()
    {
      var b, m := primeBase, primeMod;
      var len := |toHash|;
      h := 0;
      var i := 0;
      while i < len
        invariant 0 <= i <= len
        invariant h == (Poly(toHash, b) - Poly(toHash[i..], b)) % m
      {
        var e := ModuloExp(b, len - 1 - i, m);
        HashStep(toHash, i, e, h, b, m);
        h := h + JsRem(Code(toHash[i]) * e, m);
        h := JsRem(h, m);
        i := i + 1;
      }
      assert toHash[len..] == [];
      lastPower := ModuloExp(b, len - 1, m);
      lastString := toHash;
      lastHash := h;
    }

    /**
     * `nextHash`: drops the first character of the window, appends `toAdd`,
     * and returns the hash of the new window without rehashing it.
     */
    method NextHash(toAdd: char) returns (h: int)
      requires Valid() && |lastString| >= 1
      modifies this`lastPower, this`lastString, this`lastHash
      ensures primeBase == old(primeBase) && primeMod == old(primeMod)
      ensures lastString == old(lastString)[1..] + [toAdd]
      ensures h == PolyHash(lastString, primeBase, primeMod) && lastHash == h
      ensures lastPower == old(lastPower)
      ensures h >= 0
      ensures Valid()
    {
      h := lastHash;
      h := h - Code(lastString[0]) * lastPower;
      h := h * primeBase + Code(toAdd);
      ghost var raw := h;
      h := JsRem(h, primeMod);
      if h < 0 {
        h := h + primeMod;
      }
      JsRemNormalised(raw, primeMod);
      RollStep(lastString, toAdd, primeBase, primeMod);
      lastString := lastString[1..] + [toAdd];
      lastHash := h;
    }
  }
}

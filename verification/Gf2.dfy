/**
 Polynomials over GF(2), written as bit strings with the highest power first, and the
 shift register that both checksums of the SD protocol are computed with.

 `Feed` is the register.  `IsRemainder` is the independent definition: schoolbook
 division by the generator, stated with a product and no register.
 */
module Gf2 {

  type Bits = seq<bool>

  function Zeros(n: nat): (z: Bits)
    ensures |z| == n && forall i :: 0 <= i < n ==> !z[i]
  {
    seq(n, _ => false)
  }

  function Xor(a: Bits, b: Bits): (c: Bits)
    requires |a| == |b|
    ensures |c| == |a| && forall i :: 0 <= i < |a| ==> c[i] == (a[i] != b[i])
  {
    seq(|a|, i requires 0 <= i < |a| => a[i] != b[i])
  }

  /** m * x^n. */
  function Raise(m: Bits, n: nat): (r: Bits)
    ensures |r| == |m| + n
    ensures forall i :: 0 <= i < |r| ==> r[i] == (i < |m| && m[i])
  {
    seq(|m| + n, i requires 0 <= i => i < |m| && m[i])
  }

  /** r again, written with n more leading zeros. */
  function Widen(n: nat, r: Bits): (w: Bits)
    ensures |w| == n + |r|
    ensures forall i :: 0 <= i < |w| ==> w[i] == (n <= i && r[i - n])
  {
    seq(n + |r|, i requires 0 <= i < n + |r| => n <= i && r[i - n])
  }

  /** The product q * p, by Horner's rule on the bits of q. */
  function Mul(q: Bits, p: Bits): (r: Bits)
    requires |p| > 0
    ensures |r| == |q| + |p| - 1
  {
    if q == [] then Zeros(|p| - 1) else
      var k := |q| - 1;
      Xor(Raise(Mul(q[..k], p), 1), Widen(k, if q[k] then p else Zeros(|p|)))
  }

  /** r is the remainder of m * x^w divided by the generator x^w + g, where w == |g|. */
  ghost predicate IsRemainder(g: Bits, m: Bits, r: Bits) {
    |r| == |g| && exists q: Bits :: |q| == |m| && Divides(g, m, q, r)
  }

  ghost predicate Divides(g: Bits, m: Bits, q: Bits, r: Bits)
    requires |r| == |g| && |q| == |m|
  {
    Raise(m, |g|) == Xor(Mul(q, [true] + g), Widen(|m|, r))
  }

  /** One clock of the register s with input bit b. */
  function Shift(g: Bits, s: Bits, b: bool): (s': Bits)
    requires |g| == |s| > 0
    ensures |s'| == |s|
    ensures forall i :: 0 <= i < |s| ==> s'[i] == ((i + 1 < |s| && s[i + 1]) != (s[0] != b && g[i]))
  {
    seq(|s|, i requires 0 <= i < |s| => (i + 1 < |s| && s[i + 1]) != (s[0] != b && g[i]))
  }

  function Feed(g: Bits, s: Bits, m: Bits): (s': Bits)
    requires |g| == |s| > 0
    ensures |s'| == |s|
  {
    if m == [] then s else Shift(g, Feed(g, s, m[..|m| - 1]), m[|m| - 1])
  }

  // ----- Feed is the remainder, and the only one -----

  function Quotient(g: Bits, m: Bits): (q: Bits)
    requires |g| > 0
    ensures |q| == |m|
  {
    if m == [] then [] else
      var k := |m| - 1;
      Quotient(g, m[..k]) + [Feed(g, Zeros(|g|), m[..k])[0] != m[k]]
  }

  lemma {:induction false} FeedDivides(g: Bits, m: Bits)
    requires |g| > 0
    ensures Divides(g, m, Quotient(g, m), Feed(g, Zeros(|g|), m))
  {
    if m != [] {
      var k := |m| - 1;
      var q, r := Quotient(g, m[..k]), Feed(g, Zeros(|g|), m[..k]);
      FeedDivides(g, m[..k]);
      DivideOneMore(g, m[..k], m[k], q, r);
      assert m == m[..k] + [m[k]];
    }
  }

  lemma DivideOneMore(g: Bits, m: Bits, b: bool, q: Bits, r: Bits)
    requires |r| == |g| > 0 && |q| == |m| && Divides(g, m, q, r)
    ensures Divides(g, m + [b], q + [r[0] != b], Shift(g, r, b))
  {
    var q' := q + [r[0] != b];
    assert q'[..|q|] == q;
    DivisionStep(g, m, b, Mul(q, [true] + g), r);
  }

  /** One more message bit under the division: p is the product so far, r the remainder so far. */
  lemma DivisionStep(g: Bits, m: Bits, b: bool, p: Bits, r: Bits)
    requires |r| == |g| > 0 && |p| == |m| + |g|
    requires Raise(m, |g|) == Xor(p, Widen(|m|, r))
    ensures var lead := if r[0] != b then [true] + g else Zeros(|g| + 1);
            Raise(m + [b], |g|)
            == Xor(Xor(Raise(p, 1), Widen(|m|, lead)), Widen(|m| + 1, Shift(g, r, b)))
  {
    var lead := if r[0] != b then [true] + g else Zeros(|g| + 1);
    forall i | 0 <= i < |m| + |g| + 1
      ensures Raise(m + [b], |g|)[i]
           == ((Raise(p, 1)[i] != Widen(|m|, lead)[i]) != Widen(|m| + 1, Shift(g, r, b))[i])
    {
      DivisionStepAt(g, m, b, p, r, lead, i);
    }
  }

  lemma DivisionStepAt(g: Bits, m: Bits, b: bool, p: Bits, r: Bits, lead: Bits, i: nat)
    requires |r| == |g| > 0 && |p| == |m| + |g| && i < |m| + |g| + 1
    requires Raise(m, |g|) == Xor(p, Widen(|m|, r))
    requires lead == if r[0] != b then [true] + g else Zeros(|g| + 1)
    ensures Raise(m + [b], |g|)[i]
         == ((Raise(p, 1)[i] != Widen(|m|, lead)[i]) != Widen(|m| + 1, Shift(g, r, b))[i])
  {
    hide Raise, Widen, Xor, Shift, Zeros;
    var k, w := |m|, |g|;
    assert Raise(m + [b], w)[i] == (i <= k && (m + [b])[i]) && Raise(p, 1)[i] == (i < k + w && p[i]);
    assert Widen(k, lead)[i] == (k <= i && lead[i - k]);
    assert Widen(k + 1, Shift(g, r, b))[i] == (k < i && Shift(g, r, b)[i - k - 1]);
    if i < k + w {
      assert Raise(m, w)[i] == Xor(p, Widen(k, r))[i] == (p[i] != Widen(k, r)[i]);
    }
    if k < i {
      var j := i - k - 1;
      assert Shift(g, r, b)[j] == ((j + 1 < w && r[j + 1]) != (r[0] != b && g[j]));
      assert lead[j + 1] == (r[0] != b && g[j]);
    }
  }

  lemma {:induction false} HighBitsDetermineQuotient(g: Bits, q1: Bits, q2: Bits)
    requires |q1| == |q2|
    requires Mul(q1, [true] + g)[..|q1|] == Mul(q2, [true] + g)[..|q2|]
    ensures q1 == q2
  {
    hide Mul;
    if q1 != [] {
      var k, p := |q1| - 1, [true] + g;
      HigherBits(q1, q2, p);
      HighBitsDetermineQuotient(g, q1[..k], q2[..k]);
      assert Mul(q1, p)[k] == Mul(q1, p)[..k + 1][k] && Mul(q2, p)[k] == Mul(q2, p)[..k + 1][k];
      MulBit(q1, p, k);
      MulBit(q2, p, k);
      assert q1 == q1[..k] + [q1[k]] && q2 == q2[..k] + [q2[k]];
    }
  }

  /** The high bits of a product but the last are those of the quotient without its last bit. */
  lemma HigherBits(q1: Bits, q2: Bits, p: Bits)
    requires |q1| == |q2| > 0 && p != [] && Mul(q1, p)[..|q1|] == Mul(q2, p)[..|q2|]
    ensures var k := |q1| - 1; Mul(q1[..k], p)[..k] == Mul(q2[..k], p)[..k]
  {
    hide Mul;
    var k := |q1| - 1;
    var a, b := Mul(q1[..k], p), Mul(q2[..k], p);
    forall i | 0 <= i < k ensures a[i] == b[i] {
      HigherBit(q1, q2, p, i);
    }
  }

  lemma HigherBit(q1: Bits, q2: Bits, p: Bits, i: nat)
    requires |q1| == |q2| && p != [] && i + 1 < |q1| && Mul(q1, p)[..|q1|] == Mul(q2, p)[..|q2|]
    ensures var k := |q1| - 1; Mul(q1[..k], p)[i] == Mul(q2[..k], p)[i]
  {
    hide Mul;
    assert Mul(q1, p)[i] == Mul(q1, p)[..|q1|][i] && Mul(q2, p)[i] == Mul(q2, p)[..|q2|][i];
    MulBit(q1, p, i);
    MulBit(q2, p, i);
  }

  /** One bit of a product, by its last step. */
  lemma MulBit(q: Bits, p: Bits, i: nat)
    requires q != [] && p != [] && i < |Mul(q, p)|
    ensures var k, m := |q| - 1, Mul(q[..|q| - 1], p);
            Mul(q, p)[i] == ((i < |m| && m[i]) != (k <= i && q[k] && p[i - k]))
  {
  }

  /** The register holds the remainder of the message times x^w, and nothing else does. */
  lemma RegisterIsTheRemainder(g: Bits, m: Bits, r: Bits)
    requires |g| > 0
    ensures IsRemainder(g, m, r) <==> r == Feed(g, Zeros(|g|), m)
  {
    FeedDivides(g, m);
    var s := Feed(g, Zeros(|g|), m);
    assert Divides(g, m, Quotient(g, m), s);
    if IsRemainder(g, m, r) {
      var q :| |q| == |m| && Divides(g, m, q, r);
      UniqueRemainder(g, m, q, r, Quotient(g, m), s);
    }
  }

  lemma UniqueRemainder(g: Bits, m: Bits, q1: Bits, r1: Bits, q2: Bits, r2: Bits)
    requires |g| > 0 && |q1| == |q2| == |m| && |r1| == |r2| == |g|
    requires Divides(g, m, q1, r1) && Divides(g, m, q2, r2)
    ensures q1 == q2 && r1 == r2
  {
    var n, p := |m|, [true] + g;
    var a, b := Mul(q1, p), Mul(q2, p);
    forall i | 0 <= i < n + |g|
      ensures (a[i] != Widen(n, r1)[i]) == (b[i] != Widen(n, r2)[i])
    {
      assert Xor(a, Widen(n, r1))[i] == Xor(b, Widen(n, r2))[i];
    }
    HighBitsDetermineQuotient(g, q1, q2);
    forall j | 0 <= j < |g| ensures r1[j] == r2[j] {
      assert Widen(n, r1)[n + j] == r1[j] && Widen(n, r2)[n + j] == r2[j];
    }
  }

  // ----- Algebra of the register -----

  lemma {:induction false} FeedConcat(g: Bits, s: Bits, m: Bits, n: Bits)
    requires |g| == |s| > 0
    ensures Feed(g, s, m + n) == Feed(g, Feed(g, s, m), n)
  {
    if n == [] {
      assert m + n == m;
    } else {
      var k := |n| - 1;
      FeedConcat(g, s, m, n[..k]);
      assert (m + n)[..|m + n| - 1] == m + n[..k];
    }
  }

  lemma {:induction false} FeedLinear(g: Bits, s1: Bits, s2: Bits, m1: Bits, m2: Bits)
    requires |g| == |s1| == |s2| > 0 && |m1| == |m2|
    ensures Feed(g, Xor(s1, s2), Xor(m1, m2)) == Xor(Feed(g, s1, m1), Feed(g, s2, m2))
  {
    if m1 == [] {
      assert Xor(m1, m2) == [];
    } else {
      var k := |m1| - 1;
      FeedLinear(g, s1, s2, m1[..k], m2[..k]);
      assert Xor(m1, m2)[..k] == Xor(m1[..k], m2[..k]);
      ShiftLinear(g, Feed(g, s1, m1[..k]), Feed(g, s2, m2[..k]), m1[k], m2[k]);
    }
  }

  lemma ShiftLinear(g: Bits, a: Bits, b: Bits, x: bool, y: bool)
    requires |g| == |a| == |b| > 0
    ensures Shift(g, Xor(a, b), x != y) == Xor(Shift(g, a, x), Shift(g, b, y))
  {
  }

  lemma {:induction false} FeedZeros(g: Bits, n: nat)
    requires |g| > 0
    ensures Feed(g, Zeros(|g|), Zeros(n)) == Zeros(|g|)
  {
    if n > 0 {
      FeedZeros(g, n - 1);
      assert Zeros(n)[..n - 1] == Zeros(n - 1);
      assert Shift(g, Zeros(|g|), false) == Zeros(|g|);
    }
  }

  /** With a constant term in the generator no two registers are ever merged. */
  lemma {:induction false} FeedInjective(g: Bits, s1: Bits, s2: Bits, m: Bits)
    requires |g| == |s1| == |s2| > 0 && g[|g| - 1]
    requires Feed(g, s1, m) == Feed(g, s2, m)
    ensures s1 == s2
  {
    if m != [] {
      var k, w := |m| - 1, |g|;
      var a, b := Feed(g, s1, m[..k]), Feed(g, s2, m[..k]);
      var a', b' := Shift(g, a, m[k]), Shift(g, b, m[k]);
      assert a'[w - 1] == (a[0] != m[k]) && b'[w - 1] == (b[0] != m[k]);
      forall i | 1 <= i < w ensures a[i] == b[i] {
        assert a'[i - 1] == b'[i - 1];
      }
      assert a == b;
      FeedInjective(g, s1, s2, m[..k]);
    }
  }

  /** Feeding a register its own leading bits shifts them out. */
  lemma {:induction false} FeedOwnPrefix(g: Bits, s: Bits, j: nat)
    requires |g| == |s| > 0 && j <= |s|
    ensures Feed(g, s, s[..j]) == s[j..] + Zeros(j)
  {
    if j > 0 {
      FeedOwnPrefix(g, s, j - 1);
      assert s[..j][..j - 1] == s[..j - 1];
    }
  }

  lemma FeedSelfIsZero(g: Bits, s: Bits)
    requires |g| == |s| > 0
    ensures Feed(g, s, s) == Zeros(|s|)
  {
    FeedOwnPrefix(g, s, |s|);
    assert s[..|s|] == s;
  }

  /** e is zero but for a window of at most w bits. */
  predicate IsBurst(e: Bits, w: nat) {
    exists a, b | 0 <= a <= |e| && a <= b <= |e| :: b - a <= w && OnlyWithin(e, a, b)
  }

  predicate OnlyWithin(e: Bits, a: nat, b: nat)
    requires a <= b <= |e|
  {
    e[..a] == Zeros(a) && e[b..] == Zeros(|e| - b)
  }

  /** A nonzero burst no longer than the register never leaves it at zero. */
  lemma BurstLeavesTrace(g: Bits, e: Bits)
    requires |g| > 0 && g[|g| - 1]
    requires IsBurst(e, |g|) && e != Zeros(|e|)
    ensures Feed(g, Zeros(|g|), e) != Zeros(|g|)
  {
    var a, b :| 0 <= a <= |e| && a <= b <= |e| && b - a <= |g| && OnlyWithin(e, a, b);
    if Feed(g, Zeros(|g|), e) == Zeros(|g|) {
      BurstAtLeavesTrace(g, e, a, b);
    }
  }

  lemma BurstAtLeavesTrace(g: Bits, e: Bits, a: nat, b: nat)
    requires |g| > 0 && g[|g| - 1] && a <= b <= |e| && b - a <= |g| && OnlyWithin(e, a, b)
    requires Feed(g, Zeros(|g|), e) == Zeros(|g|)
    ensures e == Zeros(|e|)
  {
    BurstIsItsWindow(e, a, b);
    var win := e[a..b];
    WindowLeavesTrace(g, a, win, |e| - b);
    ZerosConcat(a, |win|, |e| - b);
  }

  lemma BurstIsItsWindow(e: Bits, a: nat, b: nat)
    requires a <= b <= |e| && OnlyWithin(e, a, b)
    ensures e == Zeros(a) + e[a..b] + Zeros(|e| - b)
  {
    assert e == e[..a] + e[a..b] + e[b..];
  }

  lemma ZerosConcat(a: nat, b: nat, c: nat)
    ensures Zeros(a) + Zeros(b) + Zeros(c) == Zeros(a + b + c)
  {
  }

  lemma WindowLeavesTrace(g: Bits, a: nat, win: Bits, b: nat)
    requires |g| > 0 && g[|g| - 1] && |win| <= |g|
    requires Feed(g, Zeros(|g|), Zeros(a) + win + Zeros(b)) == Zeros(|g|)
    ensures win == Zeros(|win|)
  {
    var z := Zeros(|g|);
    FeedConcat(g, z, Zeros(a) + win, Zeros(b));
    FeedConcat(g, z, Zeros(a), win);
    FeedZeros(g, a);
    FeedZeros(g, b);
    FeedInjective(g, Feed(g, z, win), z, Zeros(b));
    ShortWordLeavesTrace(g, win);
  }

  lemma ShortWordLeavesTrace(g: Bits, word: Bits)
    requires |g| > 0 && g[|g| - 1] && |word| <= |g|
    requires Feed(g, Zeros(|g|), word) == Zeros(|g|)
    ensures word == Zeros(|word|)
  {
    hide Feed;
    var z := Zeros(|g|);
    var s := word + Zeros(|g| - |word|);
    FeedOwnPrefix(g, s, |word|);
    PaddedWord(word, |g|);
    FeedInjective(g, s, z, word);
    assert word == s[..|word|];
    assert word == Zeros(|word|);
  }

  lemma PaddedWord(word: Bits, n: nat)
    requires |word| <= n
    ensures var s := word + Zeros(n - |word|); s[..|word|] == word && s[|word|..] + Zeros(|word|) == Zeros(n)
  {
  }

  /** A codeword hit by a nonzero burst is no longer a codeword. */
  lemma BurstIsDetected(g: Bits, c: Bits, e: Bits)
    requires |g| > 0 && g[|g| - 1] && |c| == |e|
    requires Feed(g, Zeros(|g|), c) == Zeros(|g|)
    requires IsBurst(e, |g|) && e != Zeros(|e|)
    ensures Feed(g, Zeros(|g|), Xor(c, e)) != Zeros(|g|)
  {
    var z := Zeros(|g|);
    assert Xor(z, z) == z;
    FeedLinear(g, z, z, c, e);
    assert Xor(z, Feed(g, z, e)) == Feed(g, z, e);
    BurstLeavesTrace(g, e);
  }

  // ----- The two shapes the C loops need -----

  /** The loops add a whole byte at the top first and then clock; this is one such clock. */
  lemma PreloadedClock(g: Bits, s: Bits, rest: Bits)
    requires |g| == |s| > 0 && 0 < |rest| <= |s|
    ensures var x := Xor(s, rest + Zeros(|s| - |rest|));
            (if x[0] then Xor(x[1..] + [false], g) else x[1..] + [false])
            == Xor(Shift(g, s, rest[0]), rest[1..] + Zeros(|s| - |rest| + 1))
  {
  }

  /** A register kept one place higher than needed computes the same thing one place higher. */
  lemma {:induction false} WideRegister(g: Bits, s: Bits, m: Bits)
    requires |g| == |s| > 0
    ensures Feed(g + [false], s + [false], m) == Feed(g, s, m) + [false]
  {
    if m != [] {
      WideRegister(g, s, m[..|m| - 1]);
    }
  }
}

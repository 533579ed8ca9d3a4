/** Octets, and the big-endian numbers the wire formats are made of. */
module Bytes {

  type byte = bv8

  const CR: byte := 13
  const LF: byte := 10

  /** The octet of a small number, counted up to it: no conversion the solver would have to undo. */
  function ToByte(m: nat): (b: byte)
    requires m < 256
    ensures b as nat == m
  {
    if m == 0 then 0 else
      Successor(ToByte(m - 1));
      ToByte(m - 1) + 1
  }

  lemma Successor(b: byte)
    requires b as nat < 255
    ensures (b + 1) as nat == b as nat + 1
  {
  }

  /** The low octet of n: what a C cast to uint8_t keeps. */
  function LowByte(n: nat): (b: byte)
    ensures b as nat == n % 256
  {
    ToByte(n % 256)
  }

  function Pow256(k: nat): (p: nat)
    ensures p > 0
  {
    if k == 0 then 1 else 256 * Pow256(k - 1)
  }

  /** n as k octets, most significant first; higher octets are cut off. */
  function BigEndian(n: nat, k: nat): (s: seq<byte>)
    ensures |s| == k
  {
    if k == 0 then [] else BigEndian(n / 256, k - 1) + [LowByte(n)]
  }

  function BigEndianValue(s: seq<byte>): nat {
    if s == [] then 0 else 256 * BigEndianValue(s[..|s| - 1]) + s[|s| - 1] as nat
  }

  lemma {:induction false} BigEndianRoundTrip(n: nat, k: nat)
    ensures BigEndianValue(BigEndian(n, k)) == n % Pow256(k)
  {
    if k > 0 {
      BigEndianRoundTrip(n / 256, k - 1);
      assert BigEndian(n, k)[..k - 1] == BigEndian(n / 256, k - 1);
      SplitLowByte(n, Pow256(k - 1));
    }
  }

  lemma SplitLowByte(n: nat, p: nat)
    requires p > 0
    ensures n % (256 * p) == 256 * (n / 256 % p) + n % 256
  {
    var h, l := n / 256, n % 256;
    var q, r := h / p, h % p;
    assert h == p * q + r && n == 256 * h + l;
    assert n == (256 * p) * q + (256 * r + l) by {
      assert 256 * (p * q) == (256 * p) * q;
    }
    ModuloUnique(n, 256 * p, q, 256 * r + l);
  }

  lemma ModuloUnique(n: nat, m: nat, q: nat, r: nat)
    requires m > 0 && n == m * q + r && r < m
    ensures n % m == r && n / m == q
  {
    var q', r' := n / m, n % m;
    assert n == m * q' + r';
    if q' < q {
      assert m * q >= m * (q' + 1) by { MulMonotone(m, q' + 1, q); }
    } else if q < q' {
      assert m * q' >= m * (q + 1) by { MulMonotone(m, q + 1, q'); }
    }
  }

  lemma MulMonotone(m: nat, a: nat, b: nat)
    requires a <= b
    ensures m * a <= m * b
  {
    assert m * b == m * a + m * (b - a);
  }

  lemma PowersOf256()
    ensures Pow256(1) == 0x100 && Pow256(2) == 0x1_0000 && Pow256(4) == 0x1_0000_0000
    ensures Pow256(8) == 0x1_0000_0000_0000_0000
  {
    assert Pow256(1) == 256 * Pow256(0);
    assert Pow256(2) == 256 * Pow256(1);
    assert Pow256(3) == 256 * Pow256(2);
    assert Pow256(4) == 256 * Pow256(3);
    assert Pow256(5) == 256 * Pow256(4) && Pow256(6) == 256 * Pow256(5);
    assert Pow256(7) == 256 * Pow256(6) && Pow256(8) == 256 * Pow256(7);
  }

  lemma FourBytesRoundTrip(n: nat)
    requires n < 0x1_0000_0000
    ensures BigEndianValue(BigEndian(n, 4)) == n
  {
    hide Pow256, BigEndian, BigEndianValue;
    PowersOf256();
    BigEndianRoundTrip(n, 4);
    ModuloUnique(n, Pow256(4), 0, n);
  }
}

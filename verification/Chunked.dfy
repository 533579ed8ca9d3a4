/**
 The chunked transfer coding as section 7.1 of RFC 9112 reads it, without chunk extensions and
 trailers, and what httpd_resp_send_chunk() writes.
 */
module Chunked {
  import opened Bytes

  const CRLF: seq<byte> := [CR, LF]

  function Digit(d: nat): byte
    requires d < 16
  {
    [48, 49, 50, 51, 52, 53, 54, 55, 56, 57, 97, 98, 99, 100, 101, 102][d]
  }

  /** The value of a hexadecimal digit; 16 for anything else. */
  function DigitValue(b: byte): (d: nat)
    ensures d <= 16
  {
    if 48 <= b <= 57 then (b - 48) as nat
    else if 65 <= b <= 70 then (b - 55) as nat
    else if 97 <= b <= 102 then (b - 87) as nat
    else 16
  }

  /** %lx */
  function Hex(n: nat): (s: seq<byte>)
    ensures |s| > 0
  {
    if n < 16 then [Digit(n)] else Hex(n / 16) + [Digit(n % 16)]
  }

  predicate IsHex(s: seq<byte>) {
    forall i | 0 <= i < |s| :: DigitValue(s[i]) < 16
  }

  function HexValue(s: seq<byte>): nat
    requires IsHex(s)
  {
    if s == [] then 0 else 16 * HexValue(s[..|s| - 1]) + DigitValue(s[|s| - 1])
  }

  lemma DigitRoundTrip(d: nat)
    requires d < 16
    ensures DigitValue(Digit(d)) == d
  {
  }

  lemma {:induction false} HexRoundTrip(n: nat)
    ensures IsHex(Hex(n)) && HexValue(Hex(n)) == n
  {
    hide Hex, IsHex, HexValue, Digit;
    HexSplit(n);
    if n >= 16 {
      HexRoundTrip(n / 16);
      HexMore(Hex(n / 16), n % 16);
    } else {
      HexMore([], n);
    }
  }

  lemma HexSplit(n: nat)
    ensures Hex(n) == (if n < 16 then [] else Hex(n / 16)) + [Digit(n % 16)]
    ensures IsHex([]) && HexValue([]) == 0
  {
  }

  lemma HexMore(s: seq<byte>, d: nat)
    requires IsHex(s) && d < 16
    ensures IsHex(s + [Digit(d)]) && HexValue(s + [Digit(d)]) == 16 * HexValue(s) + d
  {
    DigitRoundTrip(d);
    hide Digit, DigitValue;
    assert (s + [Digit(d)])[..|s|] == s;
  }

  // ----- The receiver -----

  datatype Decoded = Complete(body: seq<byte>, rest: seq<byte>) | Incomplete | Malformed

  /** The number of hexadecimal digits s begins with. */
  function DigitsIn(s: seq<byte>): (k: nat)
    ensures k <= |s| && IsHex(s[..k]) && (k < |s| ==> DigitValue(s[k]) == 16)
  {
    if s == [] || DigitValue(s[0]) == 16 then 0 else 1 + DigitsIn(s[1..])
  }

  /** Is s the start of a line end, a line end, or neither? */
  predicate StartsCrLf(s: seq<byte>) {
    |s| >= 2 && s[0] == CR && s[1] == LF
  }

  predicate MayStartCrLf(s: seq<byte>) {
    s == [] || s == [CR] || StartsCrLf(s)
  }

  datatype Size = Size(n: nat, after: seq<byte>) | NeedMore | BadSize

  /** The size line at the front of s. */
  function ParseSize(s: seq<byte>): (r: Size)
    ensures r.Size? ==> |r.after| < |s|
  {
    var k := DigitsIn(s);
    var line := s[k..];
    if !MayStartCrLf(line) || (k == 0 && line != []) then BadSize
    else if !StartsCrLf(line) then NeedMore
    else Size(HexValue(s[..k]), line[2..])
  }

  /** A chunked body from the front of s. */
  function Decode(s: seq<byte>): Decoded
    decreases |s|
  {
    match ParseSize(s)
    case BadSize => Malformed
    case NeedMore => Incomplete
    case Size(n, d) =>
      if |d| < n then Incomplete
      else if !MayStartCrLf(d[n..]) then Malformed
      else if !StartsCrLf(d[n..]) then Incomplete
      else if n == 0 then Complete([], d[2..])
      else
        match Decode(d[n + 2..])
        case Complete(body, rest) => Complete(d[..n] + body, rest)
        case other => other
  }

  // ----- The sender's bytes -----

  /** One chunk: its size in hexadecimal, a line end, the data, a line end. */
  function Chunk(data: seq<byte>): (s: seq<byte>)
    ensures |s| > 4
  {
    Hex(|data|) + CRLF + data + CRLF
  }

  /** The body for a list of chunks; the one of size zero closes it. */
  function Chunks(parts: seq<seq<byte>>): seq<byte> {
    if parts == [] then Chunk([]) else Chunk(parts[0]) + Chunks(parts[1..])
  }

  function Flatten(parts: seq<seq<byte>>): seq<byte> {
    if parts == [] then [] else parts[0] + Flatten(parts[1..])
  }

  predicate NoneEmpty(parts: seq<seq<byte>>) {
    forall i | 0 <= i < |parts| :: parts[i] != []
  }

  lemma {:induction false} DigitsUpTo(h: seq<byte>, rest: seq<byte>)
    requires IsHex(h) && (rest != [] ==> DigitValue(rest[0]) == 16)
    ensures DigitsIn(h + rest) == |h|
  {
    if h == [] {
      assert h + rest == rest;
    } else {
      DigitsUpTo(h[1..], rest);
      assert (h + rest)[1..] == h[1..] + rest;
    }
  }

  lemma SizeParsed(n: nat, d: seq<byte>)
    ensures ParseSize(Hex(n) + (CRLF + d)) == Size(n, d)
  {
    hide Hex, HexValue;
    var h, line := Hex(n), CRLF + d;
    assert line[0] == CR && line[1] == LF && line[2..] == d;
    HexRoundTrip(n);
    DigitsUpTo(h, line);
    assert (h + line)[..|h|] == h && (h + line)[|h|..] == line;
  }

  lemma SizeCut(n: nat, cut: nat)
    requires cut < |Hex(n)| + 2
    ensures ParseSize((Hex(n) + CRLF)[..cut]) == NeedMore
  {
    hide Hex, HexValue;
    var h := Hex(n);
    var s := (h + CRLF)[..cut];
    HexRoundTrip(n);
    if cut <= |h| {
      assert s == h[..cut] + [];
      DigitsUpTo(h[..cut], []);
      assert s[cut..] == [];
    } else {
      assert s == h + [CR];
      DigitsUpTo(h, [CR]);
      assert s[|h|..] == [CR];
    }
  }

  /** What the receiver makes of a chunk and what follows it. */
  lemma DecodeChunk(data: seq<byte>, rest: seq<byte>)
    ensures Decode(Chunk(data) + rest)
         == if data == [] then Complete([], rest)
            else match Decode(rest)
                 case Complete(body, more) => Complete(data + body, more)
                 case other => other
  {
    hide ParseSize, Hex;
    var n, d := |data|, data + (CRLF + rest);
    assert Chunk(data) + rest == Hex(n) + (CRLF + d);
    SizeParsed(n, d);
    assert d[..n] == data && d[n..] == CRLF + rest && d[n + 2..] == rest;
  }

  /** Cut anywhere inside, a chunk leaves the receiver waiting. */
  lemma DecodeCutChunk(data: seq<byte>, cut: nat)
    requires cut < |Chunk(data)|
    ensures Decode(Chunk(data)[..cut]) == Incomplete
  {
    hide ParseSize, Hex;
    var h, n, s := Hex(|data|), |data|, Chunk(data)[..cut];
    if cut < |h| + 2 {
      assert s == (h + CRLF)[..cut];
      SizeCut(n, cut);
    } else {
      var d := (data + CRLF)[..cut - |h| - 2];
      assert s == h + (CRLF + d);
      SizeParsed(n, d);
      if |d| >= n {
        assert d[n..] == CRLF[..|d| - n];
      }
    }
  }

  /** Chunks without the one that closes the body. */
  function ChunkRun(parts: seq<seq<byte>>): seq<byte> {
    if parts == [] then [] else Chunk(parts[0]) + ChunkRun(parts[1..])
  }

  lemma {:induction false} ChunkRunNext(parts: seq<seq<byte>>, data: seq<byte>)
    ensures ChunkRun(parts + [data]) == ChunkRun(parts) + Chunk(data)
    ensures Flatten(parts + [data]) == Flatten(parts) + data
  {
    hide Chunk;
    if parts == [] {
      assert [data][1..] == [];
      assert parts + [data] == [data];
    } else {
      ChunkRunNext(parts[1..], data);
      assert (parts + [data])[1..] == parts[1..] + [data];
    }
  }

  lemma {:induction false} ChunkRunClosed(parts: seq<seq<byte>>)
    ensures Chunks(parts) == ChunkRun(parts) + Chunk([])
  {
    hide Chunk;
    if parts != [] {
      ChunkRunClosed(parts[1..]);
    }
  }

  /** Round trip: the receiver recovers the data, and knows where the body ends. */
  lemma {:induction false} DecodeChunks(parts: seq<seq<byte>>, rest: seq<byte>)
    requires NoneEmpty(parts)
    ensures Decode(Chunks(parts) + rest) == Complete(Flatten(parts), rest)
  {
    hide ParseSize, Hex, Decode, Chunk;
    if parts == [] {
      DecodeChunk([], rest);
    } else {
      DecodeChunks(parts[1..], rest);
      DecodeChunk(parts[0], Chunks(parts[1..]) + rest);
      assert Chunks(parts) + rest == Chunk(parts[0]) + (Chunks(parts[1..]) + rest);
    }
  }

  /** Nothing short of the whole is ever taken for the whole. */
  lemma {:induction false} DecodeCutChunks(parts: seq<seq<byte>>, cut: nat)
    requires NoneEmpty(parts) && cut < |Chunks(parts)|
    ensures Decode(Chunks(parts)[..cut]) == Incomplete
  {
    hide ParseSize, Hex, Decode, Chunk;
    if parts == [] {
      DecodeCutChunk([], cut);
    } else {
      var c := Chunk(parts[0]);
      if cut < |c| {
        assert Chunks(parts)[..cut] == c[..cut];
        DecodeCutChunk(parts[0], cut);
      } else {
        assert Chunks(parts)[..cut] == c + Chunks(parts[1..])[..cut - |c|];
        DecodeCutChunks(parts[1..], cut - |c|);
        DecodeChunk(parts[0], Chunks(parts[1..])[..cut - |c|]);
      }
    }
  }

  // ----- The size line as the sender builds it -----

  /** snprintf() into ten characters keeps nine. */
  function SizeLine(n: nat): seq<byte> {
    var full := Hex(n) + CRLF;
    if |full| <= 9 then full else full[..9]
  }

  lemma {:induction false} HexLength(n: nat, k: nat)
    requires k > 0
    ensures |Hex(n)| <= k <==> n < Pow16(k)
  {
    if k == 1 {
      assert Pow16(1) == 16 * Pow16(0);
    } else if n >= 16 {
      HexLength(n / 16, k - 1);
      var p := Pow16(k - 1);
      assert n / 16 < p <==> n < 16 * p;
    } else {
      Pow16AtLeast(k);
    }
  }

  function Pow16(k: nat): nat {
    if k == 0 then 1 else 16 * Pow16(k - 1)
  }

  lemma {:induction false} Pow16AtLeast(k: nat)
    requires k > 0
    ensures Pow16(k) >= 16
  {
    if k > 1 {
      Pow16AtLeast(k - 1);
    }
  }

  /** The size line is whole exactly for chunks below 2^28 bytes. */
  lemma SizeLineIntact(n: nat)
    ensures SizeLine(n) == Hex(n) + CRLF <==> n < 0x1000_0000
  {
    HexLength(n, 7);
    assert Pow16(1) == 16 && Pow16(2) == 0x100 && Pow16(3) == 0x1000;
    assert Pow16(4) == 0x1_0000 && Pow16(5) == 0x10_0000 && Pow16(6) == 0x100_0000;
    assert Pow16(7) == 0x1000_0000;
  }
}

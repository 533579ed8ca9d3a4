/**
 The base framing of section 5.2 of RFC 6455, and the header that
 components/esp_http_server/src/httpd_ws.c builds for the frames it sends.
 */
module WsFormat {
  import opened Bytes

  const FIN: byte := 0x80
  const MASK: byte := 0x80

  const CONTINUE: byte := 0x0
  const CLOSE: byte := 0x8
  const PING: byte := 0x9
  const PONG: byte := 0xA

  datatype Header = Header(final: bool, opcode: byte, masked: bool, len: nat, rest: seq<byte>)
  datatype Parsed = Got(h: Header) | Short

  /** Section 5.2: two octets, then the extended length if the seven bits call for one. */
  function Parse(s: seq<byte>): Parsed {
    if |s| < 2 then Short else
      var final, opcode := s[0] & FIN != 0, s[0] & 0x0F;
      var masked, small := s[1] & MASK != 0, s[1] & 0x7F;
      if small == 127 then
        if |s| < 10 then Short else Got(Header(final, opcode, masked, BigEndianValue(s[2..10]), s[10..]))
      else if small == 126 then
        if |s| < 4 then Short else Got(Header(final, opcode, masked, BigEndianValue(s[2..4]), s[4..]))
      else Got(Header(final, opcode, masked, small as nat, s[2..]))
  }

  /** How many octets of length follow the seven bits. */
  function ExtLen(small: byte): nat {
    if small == 126 then 2 else if small == 127 then 8 else 0
  }

  /** The header httpd_ws_send_frame_async() writes. */
  function SendHeader(kind: byte, fragmented: bool, final: bool, len: nat): (s: seq<byte>)
    ensures 2 <= |s| <= 10
  {
    var first := kind | if !fragmented || final then FIN else CONTINUE;
    if len <= 125 then [first, LowByte(len)]
    else if len < 0xFFFF then [first, 126] + BigEndian(len, 2)
    else [first, 127] + BigEndian(len, 8)
  }

  /** The least number of octets that can carry the length. */
  function Shortest(len: nat): nat {
    if len <= 125 then 2 else if len <= 0xFFFF then 4 else 10
  }

  lemma FirstOctet(kind: byte, fin: bool)
    requires kind & 0xF0 == 0
    ensures var b := kind | if fin then FIN else CONTINUE;
            (b & FIN != 0 <==> fin) && b & 0x0F == kind
  {
  }

  lemma SmallLength(len: nat)
    requires len <= 125
    ensures var b := LowByte(len);
            b & MASK == 0 && b & 0x7F == b && b != 126 && b != 127 && b as nat == len
  {
    var b := LowByte(len);
    assert b as nat == len;
    ByteBelow126(b);
  }

  lemma ByteBelow126(b: byte)
    requires b as nat <= 125
    ensures b <= 125
    ensures b & MASK == 0 && b & 0x7F == b
  {
    ByteOrder(b, 125);
  }

  lemma ByteOrder(a: byte, b: byte)
    requires a as nat <= b as nat
    ensures a <= b
  {
  }

  lemma ParseShort(a: byte, b: byte, rest: seq<byte>)
    requires b & MASK == 0 && b & 0x7F == b && b != 126 && b != 127
    ensures Parse([a, b] + rest) == Got(Header(a & FIN != 0, a & 0x0F, false, b as nat, rest))
  {
    hide BigEndianValue;
    assert ([a, b] + rest)[2..] == rest;
  }

  lemma ParseExtended(a: byte, b: byte, ext: seq<byte>, rest: seq<byte>)
    requires (b == 126 && |ext| == 2) || (b == 127 && |ext| == 8)
    ensures Parse([a, b] + ext + rest) == Got(Header(a & FIN != 0, a & 0x0F, false, BigEndianValue(ext), rest))
  {
    hide BigEndianValue;
    var s := [a, b] + ext + rest;
    assert s[1] == b && b & MASK == 0 && b & 0x7F == b;
    assert s[2..2 + |ext|] == ext && s[2 + |ext|..] == rest;
  }

  /** What is written reads back as the same FIN, opcode and length, unmasked. */
  lemma SendHeaderRoundTrip(kind: byte, fragmented: bool, final: bool, len: nat, rest: seq<byte>)
    requires kind & 0xF0 == 0 && len < 0x1_0000_0000_0000_0000
    ensures Parse(SendHeader(kind, fragmented, final, len) + rest)
         == Got(Header(!fragmented || final, kind, false, len, rest))
  {
    hide Parse, BigEndian, BigEndianValue;
    var first := kind | if !fragmented || final then FIN else CONTINUE;
    FirstOctet(kind, !fragmented || final);
    if len <= 125 {
      SmallLength(len);
      ParseShort(first, LowByte(len), rest);
    } else if len < 0xFFFF {
      TwoBytes(len);
      ParseExtended(first, 126, BigEndian(len, 2), rest);
    } else {
      EightBytes(len);
      ParseExtended(first, 127, BigEndian(len, 8), rest);
    }
  }

  lemma ParseConsumes(s: seq<byte>)
    ensures Parse(s).Got? ==> |s| >= 2 && |s| == 2 + ExtLen(s[1] & 0x7F) + |Parse(s).h.rest|
  {
    hide BigEndianValue;
  }

  lemma HeaderSizes(kind: byte, fragmented: bool, final: bool, len: nat)
    ensures var h := SendHeader(kind, fragmented, final, len);
            |h| == 2 + ExtLen(h[1] & 0x7F)
  {
    if len <= 125 {
      SmallLength(len);
    }
  }

  /**
   Of a frame that a wire took only n octets of the header and m of the payload of, the peer reads
   what was meant exactly if that is all of both.
   */
  lemma FrameReadIffWhole(kind: byte, fragmented: bool, final: bool, payload: seq<byte>, n: nat, m: nat)
    requires kind & 0xF0 == 0 && |payload| < 0x1_0000_0000_0000_0000 && m <= |payload|
    requires n <= |SendHeader(kind, fragmented, final, |payload|)|
    ensures Parse(SendHeader(kind, fragmented, final, |payload|)[..n] + payload[..m])
         == Got(Header(!fragmented || final, kind, false, |payload|, payload))
      <==> n == |SendHeader(kind, fragmented, final, |payload|)| && m == |payload|
  {
    var h := SendHeader(kind, fragmented, final, |payload|);
    HeaderSizes(kind, fragmented, final, |payload|);
    ParseConsumes(h[..n] + payload[..m]);
    SendHeaderRoundTrip(kind, fragmented, final, |payload|, payload);
    hide Parse, SendHeader, ExtLen;
    assert h[..|h|] == h && payload[..|payload|] == payload;
    if n >= 2 {
      assert (h[..n] + payload[..m])[1] == h[1];
    }
  }

  /** A header cut after its first octet, whatever frame it was for: the payload is read as the rest of it. */
  lemma CutHeaderMisleads(kind: byte, fragmented: bool, final: bool, payload: seq<byte>)
    requires kind & 0xF0 == 0 && payload != [] && ExtLen(payload[0] & 0x7F) == 0
    ensures Parse(SendHeader(kind, fragmented, final, |payload|)[..1] + payload)
         == Got(Header(!fragmented || final, kind, payload[0] & MASK != 0, (payload[0] & 0x7F) as nat, payload[1..]))
  {
    FirstOctet(kind, !fragmented || final);
    var h := SendHeader(kind, fragmented, final, |payload|);
    var s := h[..1] + payload;
    assert s[0] == h[0] && s[1] == payload[0] && s[2..] == payload[1..];
    hide BigEndianValue;
  }

  lemma TwoBytes(n: nat)
    requires n < 0x1_0000
    ensures BigEndianValue(BigEndian(n, 2)) == n
  {
    hide Pow256, BigEndian, BigEndianValue;
    PowersOf256();
    BigEndianRoundTrip(n, 2);
    ModuloUnique(n, Pow256(2), 0, n);
  }

  lemma EightBytes(n: nat)
    requires n < 0x1_0000_0000_0000_0000
    ensures BigEndianValue(BigEndian(n, 8)) == n
  {
    hide Pow256, BigEndian, BigEndianValue;
    PowersOf256();
    BigEndianRoundTrip(n, 8);
    ModuloUnique(n, Pow256(8), 0, n);
  }

  /** The shortest form is used for every length but one. */
  lemma ShortestBut65535(kind: byte, fragmented: bool, final: bool, len: nat)
    ensures |SendHeader(kind, fragmented, final, len)| == Shortest(len) <==> len != 0xFFFF
  {
  }

  // ----- Masking, section 5.3 -----

  /** Octets xored with the key, its first octet falling on position 0 of the payload. */
  function Masked(data: seq<byte>, key: seq<byte>, from: nat): (m: seq<byte>)
    requires |key| == 4
    ensures |m| == |data|
  {
    seq(|data|, i requires 0 <= i < |data| => data[i] ^ key[(i + from) % 4])
  }

  lemma MaskTwice(data: seq<byte>, key: seq<byte>, from: nat)
    requires |key| == 4
    ensures Masked(Masked(data, key, from), key, from) == data
  {
    forall i | 0 <= i < |data| ensures Masked(Masked(data, key, from), key, from)[i] == data[i] {
      XorTwice(data[i], key[(i + from) % 4]);
    }
  }

  lemma XorTwice(a: byte, b: byte)
    ensures (a ^ b) ^ b == a
  {
  }

  /** A slice of a masked payload is that slice of the payload, masked from its own position. */
  lemma MaskedSlice(data: seq<byte>, key: seq<byte>, a: nat, b: nat)
    requires |key| == 4 && a <= b <= |data|
    ensures Masked(data, key, 0)[a..b] == Masked(data[a..b], key, a)
  {
  }

  /** A frame from a client, as sections 5.2 and 5.3 have it. */
  predicate ClientFrame(s: seq<byte>, final: bool, opcode: byte, key: seq<byte>, payload: seq<byte>, rest: seq<byte>)
    requires |key| == 4
  {
    var p := Parse(s);
    && p.Got? && p.h.final == final && p.h.opcode == opcode && p.h.masked && p.h.len == |payload|
    && p.h.rest == key + Masked(payload, key, 0) + rest
  }
}

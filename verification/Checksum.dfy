/** Internet checksums (RFC 1071) of ICMP messages and IPv4 headers (kernel/src/net/icmp.rs, kernel/src/net/ipv4.rs). */
module Checksum {
  type Byte = x: nat | x < 256

  const MOD32: nat := 0x1_0000_0000

  // The words of a message in network order; an odd last byte is the upper half of a word.
  function SumBE(d: seq<Byte>): nat
    decreases |d|
  {
    if d == [] then 0
    else if |d| == 1 then 0x100 * (d[0] as int)
    else 0x100 * (d[0] as int) + (d[1] as int) + SumBE(d[2..])
  }

  // The same words as a little-endian machine reads them.
  function SumLE(d: seq<Byte>): nat
    requires |d| % 2 == 0
    decreases |d|
  {
    if d == [] then 0 else (d[0] as int) + 0x100 * (d[1] as int) + SumLE(d[2..])
  }

  // End-around carry until 16 bits are left.
  function Fold(x: nat): (r: nat)
    ensures r < 0x1_0000
  {
    if x < 0x1_0000 then x else Fold(x % 0x1_0000 + x / 0x1_0000)
  }

  /** Folding keeps the sum modulo 65535; 0 is reached only from 0. */
  lemma {:induction false} FoldIs(x: nat)
    ensures Fold(x) == if x == 0 then 0 else if x % 65535 == 0 then 65535 else x % 65535
  {
    if x >= 0x1_0000 {
      var y := x % 0x1_0000 + x / 0x1_0000;
      FoldIs(y);
      assert x == 0x1_0000 * (x / 0x1_0000) + x % 0x1_0000;
      assert x - y == 65535 * (x / 0x1_0000);
      SameRemainder(x, y, x / 0x1_0000);
    }
  }

  lemma SameRemainder(x: nat, y: nat, q: nat)
    requires x == y + 65535 * q
    ensures x % 65535 == y % 65535
  {
  }

  // The checksum of a message: all ones minus the folded sum.
  function ChecksumOf(d: seq<Byte>): (c: nat)
    ensures c < 0x1_0000
  {
    65535 - Fold(SumBE(d) % MOD32)
  }

  lemma {:induction false} SumConcat(a: seq<Byte>, b: seq<Byte>)
    requires |a| % 2 == 0
    ensures SumBE(a + b) == SumBE(a) + SumBE(b)
    decreases |a|
  {
    if a == [] {
      assert a + b == b;
    } else {
      assert (a + b)[2..] == a[2..] + b;
      SumConcat(a[2..], b);
    }
  }

  // icmp_checksum
  method IcmpChecksum(data: seq<Byte>) returns (c: nat)
    ensures c == ChecksumOf(data)
  {
    var sum, i := 0, 0;
    ghost var t := 0;
    assert data[0..] == data;
    while i + 1 < |data|
      invariant i <= |data| && t >= 0 && sum == t % MOD32 && t + SumBE(data[i..]) == SumBE(data)
    {
      var word := 0x100 * (data[i] as int) + (data[i + 1] as int);
      assert data[i..][2..] == data[i + 2..];
      WrapSum(t, word);
      sum, t, i := (sum + word) % MOD32, t + word, i + 2;
    }
    ghost var rest := data[i..];
    if i < |data| {
      assert SumBE(rest) == 0x100 * (data[i] as int);
      WrapSum(t, 0x100 * (data[i] as int));
      sum := (sum + 0x100 * (data[i] as int)) % MOD32;
    }
    c := FoldLoop(sum);
    c := 65535 - c;
  }

  lemma WrapSum(x: nat, y: nat)
    ensures (x % MOD32 + y) % MOD32 == (x + y) % MOD32
  {
  }

  method FoldLoop(x: nat) returns (r: nat)
    ensures r == Fold(x)
  {
    r := x;
    while r / 0x1_0000 != 0
      invariant Fold(r) == Fold(x)
      decreases r
    {
      r := r % 0x1_0000 + r / 0x1_0000;
    }
  }

  // ---------------------------------------------------------------- ICMP echo

  function High(w: nat): Byte
    requires w < 0x1_0000
  {
    w / 0x100
  }

  function Low(w: nat): Byte { w % 0x100 }

  function Echo(kind: Byte, checksum: nat, id: nat, number: nat, payload: seq<Byte>): (m: seq<Byte>)
    requires checksum < 0x1_0000 && id < 0x1_0000 && number < 0x1_0000
    ensures |m| == 8 + |payload|
  {
    [kind, 0, High(checksum), Low(checksum), High(id), Low(id), High(number), Low(number)] + payload
  }

  lemma Sum8(d: seq<Byte>)
    requires |d| == 8
    ensures SumBE(d) == 0x100 * (d[0] as int) + d[1] + 0x100 * (d[2] as int) + d[3] + 0x100 * (d[4] as int) + d[5] +
        0x100 * (d[6] as int) + d[7]
  {
    assert d[2..][2..] == d[4..] && d[4..][2..] == d[6..] && d[6..][2..] == [];
    assert SumBE(d[6..]) == 0x100 * (d[6] as int) + d[7];
    assert SumBE(d[4..]) == 0x100 * (d[4] as int) + d[5] + SumBE(d[6..]);
    assert SumBE(d[2..]) == 0x100 * (d[2] as int) + d[3] + SumBE(d[4..]);
  }

  // The checksum field adds its value to the sum.
  lemma EchoSum(kind: Byte, c: nat, id: nat, number: nat, payload: seq<Byte>)
    requires c < 0x1_0000 && id < 0x1_0000 && number < 0x1_0000
    ensures SumBE(Echo(kind, c, id, number, payload)) == SumBE(Echo(kind, 0, id, number, payload)) + c
  {
    var h := Echo(kind, c, id, number, []);
    var z := Echo(kind, 0, id, number, []);
    assert Echo(kind, c, id, number, payload) == h + payload && Echo(kind, 0, id, number, payload) == z + payload;
    SumConcat(h, payload);
    SumConcat(z, payload);
    Sum8(h);
    Sum8(z);
  }

  // A sum and its checksum make a multiple of 65535.
  lemma Completes(s: nat) returns (k: nat)
    ensures s + (65535 - Fold(s)) == 65535 * k && k > 0
  {
    FoldIs(s);
    k := if s == 0 then 1 else if s % 65535 == 0 then s / 65535 else s / 65535 + 1;
  }

  lemma FoldMultiple(k: nat)
    requires k > 0
    ensures Fold(65535 * k) == 65535
  {
    FoldIs(65535 * k);
    SameRemainder(65535 * k, 0, k);
  }

  /** 2^32 - 1 is itself a multiple of 65535, so filling a 32-bit sum up to the next multiple never overflows it. */
  lemma FillsUp(s: nat, c: nat)
    requires s < MOD32 && c == 65535 - Fold(s)
    ensures s + c < MOD32 && Fold(s + c) == 65535
  {
    hide Fold;
    assert MOD32 == 65535 * 65537 + 1;
    FoldIs(s);
    var k := Completes(s);
    assert k <= 65537;
    FoldMultiple(k);
  }

  /** Every built message checks to 0, whatever its payload and its length. */
  lemma EchoVerifies(kind: Byte, id: nat, number: nat, payload: seq<Byte>)
    requires id < 0x1_0000 && number < 0x1_0000
    ensures var z := Echo(kind, 0, id, number, payload);
            ChecksumOf(Echo(kind, ChecksumOf(z), id, number, payload)) == 0
  {
    hide SumBE, Fold, Echo;
    var z := Echo(kind, 0, id, number, payload);
    var c := ChecksumOf(z);
    EchoSum(kind, c, id, number, payload);
    WrapSum(SumBE(z), c);
    FillsUp(SumBE(z) % MOD32, c);
  }

  // build_icmp_echo_request and build_icmp_reply, which differ in the type they write.
  method BuildEcho(packet: array<Byte>, kind: Byte, id: nat, number: nat, payload: seq<Byte>) returns (total: nat)
    requires id < 0x1_0000 && number < 0x1_0000
    modifies packet
    ensures packet.Length < 8 + |payload| ==> total == 0 && packet[..] == old(packet[..])
    ensures packet.Length >= 8 + |payload| ==>
              && total == 8 + |payload| && (forall k :: total <= k < packet.Length ==> packet[k] == old(packet[k]))
              && packet[..total] == Echo(kind, ChecksumOf(Echo(kind, 0, id, number, payload)), id, number, payload)
              && ChecksumOf(packet[..total]) == 0
  {
    hide ChecksumOf;
    total := 8 + |payload|;
    if packet.Length < total { return 0; }
    WriteEchoHeader(packet, kind, id, number);
    CopyPayload(packet, 8, payload);
    assert packet[..total] == packet[..8] + packet[8..total];
    assert packet[..total] == Echo(kind, 0, id, number, payload);
    var c := IcmpChecksum(packet[..total]);
    packet[2], packet[3] := High(c), Low(c);
    assert packet[..total] == Echo(kind, c, id, number, payload);
    EchoVerifies(kind, id, number, payload);
  }

  method WriteEchoHeader(packet: array<Byte>, kind: Byte, id: nat, number: nat)
    requires id < 0x1_0000 && number < 0x1_0000 && packet.Length >= 8
    modifies packet
    ensures packet[..8] == Echo(kind, 0, id, number, [])
    ensures forall k :: 8 <= k < packet.Length ==> packet[k] == old(packet[k])
  {
    packet[0], packet[1], packet[2], packet[3] := kind, 0, 0, 0;
    packet[4], packet[5], packet[6], packet[7] := High(id), Low(id), High(number), Low(number);
  }

  method CopyPayload(packet: array<Byte>, at: nat, payload: seq<Byte>)
    requires at + |payload| <= packet.Length
    modifies packet
    ensures packet[at..at + |payload|] == payload
    ensures forall k :: 0 <= k < packet.Length && !(at <= k < at + |payload|) ==> packet[k] == old(packet[k])
  {
    var i := 0;
    while i < |payload|
      invariant i <= |payload|
      invariant forall k ::
        0 <= k < packet.Length ==> packet[k] == if at <= k < at + i then payload[k - at] else old(packet[k])
    {
      packet[at + i] := payload[i];
      i := i + 1;
    }
  }

  // ---------------------------------------------------------------- IPv4 header

  // Swapping the bytes of every word multiplies the sum by 256, modulo 65535.
  lemma {:induction false} SwappedSum(d: seq<Byte>)
    requires |d| % 2 == 0
    ensures (0x100 * SumLE(d)) % 65535 == SumBE(d) % 65535
    decreases |d|
  {
    if d == [] {
    } else {
      SwappedSum(d[2..]);
      var x, y := SumLE(d[2..]), SumBE(d[2..]);
      assert 0x100 * SumLE(d) == 65535 * (d[1] as int) + (0x100 * (d[0] as int) + d[1]) + 0x100 * x;
      AddSame(0x100 * x, y, 0x100 * (d[0] as int) + d[1], d[1]);
    }
  }

  lemma AddSame(x: nat, y: nat, w: nat, q: nat)
    requires x % 65535 == y % 65535
    ensures (65535 * q + w + x) % 65535 == (w + y) % 65535
  {
    SameRemainder(65535 * q + w + x, w + x, q);
    assert (w + x) % 65535 == (w + x % 65535) % 65535;
    assert (w + y) % 65535 == (w + y % 65535) % 65535;
  }

  // 256 times a number is a multiple of 65535 only if the number is.
  lemma SwapZero(x: nat)
    ensures (0x100 * x) % 65535 == 0 <==> x % 65535 == 0
  {
    if (0x100 * x) % 65535 == 0 {
      var k := 0x100 * x / 65535;
      assert 0x100 * x == 65535 * k;
      assert 0x1_0000 * x == 65535 * (0x100 * k);
      SameRemainder(0x1_0000 * x, x, x);
      SameRemainder(0x1_0000 * x, 0, 0x100 * k);
    }
    if x % 65535 == 0 {
      var k := x / 65535;
      SameRemainder(0x100 * x, 0, 0x100 * k);
    }
  }

  function Word(lo: Byte, hi: Byte): nat { (lo as int) + 0x100 * (hi as int) }

  // The 20 header bytes with `lo`, `hi` in the checksum field.
  function Header(length: nat, protocol: Byte, src: seq<Byte>, dst: seq<Byte>, lo: Byte, hi: Byte): (h: seq<Byte>)
    requires |src| == 4 && |dst| == 4 && length < 0x1_0000
    ensures |h| == 20
  {
    [0x45, 0, High(length), Low(length), 0, 0, 0, 0, 64, protocol, lo, hi] + src + dst
  }

  lemma {:induction false} SumLEConcat(a: seq<Byte>, b: seq<Byte>)
    requires |a| % 2 == 0 && |b| % 2 == 0
    ensures |a + b| % 2 == 0 && SumLE(a + b) == SumLE(a) + SumLE(b)
    decreases |a|
  {
    if a == [] {
      assert a + b == b;
    } else {
      assert (a + b)[2..] == a[2..] + b;
      SumLEConcat(a[2..], b);
    }
  }

  // What the checksum field adds.
  lemma HeaderSum(length: nat, protocol: Byte, src: seq<Byte>, dst: seq<Byte>, lo: Byte, hi: Byte)
    requires |src| == 4 && |dst| == 4 && length < 0x1_0000
    ensures SumLE(Header(length, protocol, src, dst, lo, hi)) ==
        SumLE(Header(length, protocol, src, dst, 0, 0)) + Word(lo, hi)
  {
    var front: seq<Byte> := [0x45, 0, High(length), Low(length), 0, 0, 0, 0, 64, protocol];
    var back := src + dst;
    assert Header(length, protocol, src, dst, lo, hi) == front + ([lo, hi] + back);
    assert Header(length, protocol, src, dst, 0, 0) == front + ([0, 0] + back);
    SumLEConcat(front, [lo, hi] + back);
    SumLEConcat(front, [0, 0] + back);
    assert ([lo, hi] + back)[2..] == back && ([0, 0] + back)[2..] == back;
  }

  // Receivers add up the header in network order and expect all ones.
  predicate Verifies(h: seq<Byte>) { Fold(SumBE(h)) == 65535 }

  /** The header checks exactly when the checksum field of the buffer held 0 or 0xFFFF before: it is not cleared
      before the sum is taken. Neither the byte order of the machine nor that of the receiver matters. */
  lemma HeaderVerifiesIff(length: nat, protocol: Byte, src: seq<Byte>, dst: seq<Byte>, lo: Byte, hi: Byte)
    requires |src| == 4 && |dst| == 4 && length < 0x1_0000
    ensures var c := 65535 - Fold(SumLE(Header(length, protocol, src, dst, lo, hi)));
            Verifies(Header(length, protocol, src, dst, Low(c), High(c))) <==>
              Word(lo, hi) == 0 || Word(lo, hi) == 65535
  {
    hide Fold, SumLE, SumBE, Header, Word;
    var s, t := SumLE(Header(length, protocol, src, dst, 0, 0)), Word(lo, hi);
    HeaderSum(length, protocol, src, dst, lo, hi);
    var c := 65535 - Fold(s + t);
    HeaderSum(length, protocol, src, dst, Low(c), High(c));
    WordOf(c);
    WordBound(lo, hi);
    SumsUp(Header(length, protocol, src, dst, Low(c), High(c)), s, t, c);
    HeaderPositive(length, protocol, src, dst, Low(c), High(c));
  }

  lemma WordOf(c: nat)
    requires c < 0x1_0000
    ensures Word(Low(c), High(c)) == c
  {
  }

  lemma WordBound(lo: Byte, hi: Byte)
    ensures Word(lo, hi) < 0x1_0000
  {
  }

  // A sum s completed for s + t instead checks only if t counts for nothing.
  lemma SumsUp(h: seq<Byte>, s: nat, t: nat, c: nat)
    requires |h| % 2 == 0 && SumLE(h) == s + c && c == 65535 - Fold(s + t) && t < 0x1_0000
    ensures SumBE(h) > 0 ==> (Fold(SumBE(h)) == 65535 <==> t == 0 || t == 65535)
  {
    hide Fold, SumLE, SumBE;
    var k := Completes(s + t);
    Complement(s + c, t, k);
    SwappedSum(h);
    SwapZero(s + c);
    FoldIs(SumBE(h));
  }

  lemma Complement(x: nat, t: nat, k: nat)
    requires x + t == 65535 * k && t < 0x1_0000
    ensures x % 65535 == 0 <==> t == 0 || t == 65535
  {
    if t == 0 || t == 65535 {
      SameRemainder(x, 0, if t == 0 then k else k - 1);
    } else {
      SameRemainder(x, 65535 - t, k - 1);
    }
  }

  lemma HeaderPositive(length: nat, protocol: Byte, src: seq<Byte>, dst: seq<Byte>, lo: Byte, hi: Byte)
    requires |src| == 4 && |dst| == 4 && length < 0x1_0000
    ensures SumBE(Header(length, protocol, src, dst, lo, hi)) > 0
  {
  }

  // build_ipv4_packet
  method BuildIpv4(packet: array<Byte>, src: seq<Byte>, dst: seq<Byte>, protocol: Byte, payload: seq<Byte>)
    returns (total: nat)
    requires |src| == 4 && |dst| == 4
    modifies packet
    ensures packet.Length < 20 + |payload| ==> total == 0 && packet[..] == old(packet[..])
    ensures packet.Length >= 20 + |payload| ==>
              && total == 20 + |payload| && packet[20..total] == payload
              && (forall k :: total <= k < packet.Length ==> packet[k] == old(packet[k]))
              && (Verifies(packet[..20]) <==>
                  old(Word(packet[10], packet[11])) == 0 || old(Word(packet[10], packet[11])) == 65535)
              && packet[..20] == Header((20 + |payload|) % 0x1_0000, protocol, src, dst, packet[10], packet[11])
  {
    hide Verifies, Fold, SumLE, Header;
    total := 20 + |payload|;
    if packet.Length < total { return 0; }
    var length := total % 0x1_0000;
    ghost var lo, hi := packet[10], packet[11];
    WriteIpv4Header(packet, length, protocol, src, dst);
    var c := NativeChecksum(packet[..20]);
    packet[10], packet[11] := Low(c), High(c);
    assert packet[..20] == Header(length, protocol, src, dst, lo, hi)[10 := Low(c)][11 := High(c)];
    FieldSet(length, protocol, src, dst, lo, hi, Low(c), High(c));
    HeaderVerifiesIff(length, protocol, src, dst, lo, hi);
    ghost var h := packet[..20];
    CopyPayload(packet, 20, payload);
    assert packet[..20] == h;
    assert packet[..20][10] == packet[10] && packet[..20][11] == packet[11];
    FieldAt(length, protocol, src, dst, Low(c), High(c));
  }

  lemma FieldSet(length: nat, protocol: Byte, src: seq<Byte>, dst: seq<Byte>, lo: Byte, hi: Byte, lo': Byte, hi': Byte)
    requires |src| == 4 && |dst| == 4 && length < 0x1_0000
    ensures Header(length, protocol, src, dst, lo, hi)[10 := lo'][11 := hi'] ==
        Header(length, protocol, src, dst, lo', hi')
  {
  }

  lemma FieldAt(length: nat, protocol: Byte, src: seq<Byte>, dst: seq<Byte>, lo: Byte, hi: Byte)
    requires |src| == 4 && |dst| == 4 && length < 0x1_0000
    ensures Header(length, protocol, src, dst, lo, hi)[10] == lo && Header(length, protocol, src, dst, lo, hi)[11] == hi
  {
  }

  // All header fields but the checksum.
  method WriteIpv4Header(packet: array<Byte>, length: nat, protocol: Byte, src: seq<Byte>, dst: seq<Byte>)
    requires |src| == 4 && |dst| == 4 && length < 0x1_0000 && packet.Length >= 20
    modifies packet
    ensures packet[..20] == Header(length, protocol, src, dst, old(packet[10]), old(packet[11]))
    ensures forall k :: 20 <= k < packet.Length ==> packet[k] == old(packet[k])
  {
    CopyPayload(packet, 0, [0x45, 0, High(length), Low(length), 0, 0, 0, 0, 64, protocol]);
    CopyPayload(packet, 12, src + dst);
    assert packet[..20] == packet[..10] + [packet[10], packet[11]] + packet[12..20];
  }

  method NativeChecksum(h: seq<Byte>) returns (c: nat)
    requires |h| % 2 == 0
    ensures c == 65535 - Fold(SumLE(h)) && c < 0x1_0000
  {
    var sum, i := 0, 0;
    assert h[0..] == h;
    while i < |h|
      invariant i <= |h| && i % 2 == 0 && sum + SumLE(h[i..]) == SumLE(h)
    {
      assert h[i..][2..] == h[i + 2..];
      sum := sum + (h[i] as int) + 0x100 * (h[i + 1] as int);
      i := i + 2;
    }
    var r := FoldLoop(sum);
    c := 65535 - r;
  }
}

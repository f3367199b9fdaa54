/** The transport checksum and the in-place IPv4 source and destination rewrites of the NAT. */
module Rewrite {
  import opened Bytes
  import opened Checksum

  const TCP: Byte := 6
  const UDP: Byte := 17

  /** The longest segment whose sum, with its pseudo-header, fits the u32 accumulator. */
  const MAX_SEGMENT := MAX_SUMMED - 12

  // ----- Transport checksum -----

  /** The pseudo-header of RFC 793 section 3.1; the length is cast to 16 bits. */
  function PseudoHeader(src: Addr, dst: Addr, proto: Byte, len: nat): (h: seq<Byte>)
    ensures |h| == 12
  {
    src + dst + [0, proto] + [len % 65536 / 256, len % 256]
  }

  /** The segment with the word at offset 16 zeroed, when both its bytes exist. */
  function ZeroField(l4: seq<Byte>): (z: seq<Byte>)
    ensures |z| == |l4|
  {
    if |l4| >= 18 then Put16(l4, 16, 0) else l4
  }

  /** The checksum of the pseudo-header followed by the segment without its checksum field. */
  function TransportChecksumOf(src: Addr, dst: Addr, proto: Byte, l4: seq<Byte>): U16 {
    ChecksumOf(PseudoHeader(src, dst, proto, |l4|) + ZeroField(l4))
  }

  lemma ZeroFieldAt(l4: seq<Byte>, i: nat)
    requires i % 2 == 0 && i < |l4|
    ensures ZeroField(l4)[i] == if i == 16 && i + 1 < |l4| then 0 else l4[i]
    ensures i + 1 < |l4| ==> ZeroField(l4)[i + 1] == if i == 16 then 0 else l4[i + 1]
  {}

  /** The word of the zeroed segment at an even offset, and what it adds to the sum. */
  lemma SegmentStep(l4: seq<Byte>, i: nat)
    requires i % 2 == 0 && i + 1 < |l4| <= MAX_SEGMENT
    ensures var z := ZeroField(l4);
            && WordSum(z[..i + 2]) == WordSum(z[..i]) + (if i == 16 then 0 else Word(l4[i], l4[i + 1]))
            && 6 * 65535 + WordSum(z[..i + 2]) < 0x1_0000_0000
  {
    ZeroFieldAt(l4, i);
    WordSumStep(ZeroField(l4), i);
    WordSumBound(ZeroField(l4)[..i + 2]);
  }

  /** What a last single byte adds. */
  lemma SegmentTail(l4: seq<Byte>, i: nat)
    requires i % 2 == 0 && i <= |l4| <= i + 1 && |l4| <= MAX_SEGMENT
    ensures var z := ZeroField(l4);
            && WordSum(z) == WordSum(z[..i]) + (if i < |l4| then Word(l4[i], 0) else 0)
            && 6 * 65535 + WordSum(z) < 0x1_0000_0000
  {
    if i < |l4| {
      ZeroFieldAt(l4, i);
    }
    WordSumTail(ZeroField(l4), i);
    WordSumBound(ZeroField(l4));
  }

  /** Adds the segment to a running sum, reading the word at offset 16 as 0. */
  method SumSegment(start: U32, l4: seq<Byte>) returns (sum: U32)
    requires start <= 6 * 65535 && |l4| <= MAX_SEGMENT
    ensures sum == start + WordSum(ZeroField(l4))
  {
    ghost var z := ZeroField(l4);
    sum := start;
    var i := 0;
    while i + 1 < |l4|
      invariant i % 2 == 0 && i <= |l4|
      invariant sum == start + WordSum(z[..i])
    {
      var hi, lo := l4[i], l4[i + 1];
      if i == 16 {
        hi, lo := 0, 0;
      }
      SegmentStep(l4, i);
      sum := sum + Word(hi, lo);
      i := i + 2;
    }
    SegmentTail(l4, i);
    if |l4| % 2 == 1 {
      var high: nat := l4[|l4| - 1];
      sum := sum + high * 256;
    }
  }

  method TransportChecksum(src: Addr, dst: Addr, proto: Byte, l4: seq<Byte>) returns (c: U16)
    requires |l4| <= MAX_SEGMENT
    ensures c == TransportChecksumOf(src, dst, proto, l4)
  {
    var ph := PseudoHeader(src, dst, proto, |l4|);
    var sum := SumWords(ph);
    WordSumBound(ph);
    sum := SumSegment(sum, l4);
    WordSumAppend(ph, ZeroField(l4));
    ghost var rounds;
    c, rounds := FoldAndComplement(sum);
  }

  // ----- What a rewrite computes -----

  datatype Side = Source | Destination {
    function Offset(): (o: nat)
      ensures o == 12 || o == 16
    {
      if Source? then 12 else 16
    }
  }

  function Ihl(p: seq<Byte>): nat
    requires |p| > 0
  {
    p[0] % 16 * 4
  }

  /** The packets the rewrites accept: IPv4 with the whole declared header present. */
  predicate Rewritable(p: seq<Byte>) {
    |p| >= 20 && p[0] / 16 == 4 && Ihl(p) <= |p|
  }

  /** Rewritable packets whose header length is at least the minimum; every parsed packet is one. */
  predicate WellFormed(p: seq<Byte>) {
    Rewritable(p) && Ihl(p) >= 20
  }

  function GetAddr(p: seq<Byte>, side: Side): Addr
    requires |p| >= 20
  {
    p[side.Offset()..side.Offset() + 4]
  }

  function PutAddr(p: seq<Byte>, side: Side, a: Addr): (q: seq<Byte>)
    requires |p| >= 20
    ensures |q| == |p|
  {
    p[..side.Offset()] + a + p[side.Offset() + 4..]
  }

  function HeaderSum(p: seq<Byte>): U16
    requires Rewritable(p)
  {
    ChecksumOf(Put16(p, 10, 0)[..Ihl(p)])
  }

  /** TCP or UDP with the word at segment offset 16 present. */
  predicate HasL4Field(p: seq<Byte>)
    requires Rewritable(p)
  {
    (p[9] == TCP || p[9] == UDP) && |p| >= Ihl(p) + 18
  }

  function L4Sum(p: seq<Byte>): U16
    requires Rewritable(p)
  {
    TransportChecksumOf(GetAddr(p, Source), GetAddr(p, Destination), p[9], p[Ihl(p)..])
  }

  function FixHeader(p: seq<Byte>): (q: seq<Byte>)
    requires Rewritable(p)
  {
    Put16(p, 10, HeaderSum(p))
  }

  function FixL4(p: seq<Byte>): (q: seq<Byte>)
    requires Rewritable(p)
    ensures |q| == |p|
  {
    if HasL4Field(p) then Put16(p, Ihl(p) + 16, L4Sum(p)) else p
  }

  function Rewritten(p: seq<Byte>, side: Side, a: Addr): seq<Byte>
    requires Rewritable(p)
  {
    FixL4(FixHeader(PutAddr(p, side, a)))
  }

  // ----- The two methods, in place on the first n bytes of a reused buffer -----

  /** Overwrites bytes at..at+4 with an address. */
  method StoreAddr(pkt: array<Byte>, at: nat, a: Addr)
    requires at + 4 <= pkt.Length
    modifies pkt
    ensures pkt[..] == old(pkt[..at]) + a + old(pkt[at + 4..])
  {
    pkt[at], pkt[at + 1], pkt[at + 2], pkt[at + 3] := a[0], a[1], a[2], a[3];
  }

  method Store16(pkt: array<Byte>, at: nat, w: U16)
    requires at + 2 <= pkt.Length
    modifies pkt
    ensures pkt[..] == Put16(old(pkt[..]), at, w)
  {
    pkt[at], pkt[at + 1] := High(w), Low(w);
  }

  /** Zeroes and recomputes the IPv4 header checksum. */
  method StoreHeaderSum(pkt: array<Byte>, n: nat, ihl: nat)
    requires 20 <= n <= pkt.Length && Rewritable(pkt[..n]) && ihl == Ihl(pkt[..n])
    modifies pkt
    ensures pkt[..n] == FixHeader(old(pkt[..n]))
    ensures pkt[n..] == old(pkt[n..])
  {
    ghost var p := pkt[..n];
    Store16(pkt, 10, 0);
    assert pkt[..n] == Put16(p, 10, 0);
    assert pkt[..ihl] == Put16(p, 10, 0)[..ihl];
    var ipSum := Checksum.Checksum(pkt[..ihl]);
    Store16(pkt, 10, ipSum);
    assert pkt[..n] == Put16(Put16(p, 10, 0), 10, ipSum);
    Put16Again(p, 10, 0, ipSum);
  }

  /** Recomputes the TCP/UDP checksum for the given addresses, when the packet has the field. */
  method StoreL4Sum(pkt: array<Byte>, n: nat, ihl: nat, src: Addr, dst: Addr)
    requires 20 <= n <= pkt.Length && n <= MAX_SEGMENT
    requires Rewritable(pkt[..n]) && ihl == Ihl(pkt[..n])
    requires src == GetAddr(pkt[..n], Source) && dst == GetAddr(pkt[..n], Destination)
    modifies pkt
    ensures pkt[..n] == FixL4(old(pkt[..n]))
    ensures pkt[n..] == old(pkt[n..])
  {
    ghost var p := pkt[..n];
    var proto := pkt[9];
    if (proto == TCP || proto == UDP) && n >= ihl + 18 {
      assert pkt[ihl..n] == p[ihl..];
      var sum := TransportChecksum(src, dst, proto, pkt[ihl..n]);
      Store16(pkt, ihl + 16, sum);
      assert pkt[..n] == Put16(p, ihl + 16, sum);
    }
  }

  method RewriteIpv4Source(pkt: array<Byte>, n: nat, newSrc: Addr) returns (ok: bool)
    requires n <= pkt.Length && n <= MAX_SEGMENT
    modifies pkt
    ensures ok <==> Rewritable(old(pkt[..n]))
    ensures pkt[..n] == if ok then Rewritten(old(pkt[..n]), Source, newSrc) else old(pkt[..n])
    ensures pkt[n..] == old(pkt[n..])
  {
    if n < 20 || pkt[0] / 16 != 4 {
      return false;
    }
    var ihl := pkt[0] % 16 * 4;
    if n < ihl {
      return false;
    }
    ghost var p := pkt[..n];
    StoreAddr(pkt, 12, newSrc);
    assert pkt[..n] == PutAddr(p, Source, newSrc);
    StoreHeaderSum(pkt, n, ihl);
    var dst := pkt[16..20];
    assert pkt[..n][12..16] == newSrc;
    assert pkt[..n][16..20] == dst;
    StoreL4Sum(pkt, n, ihl, newSrc, dst);
    ok := true;
  }

  method RewriteIpv4Dest(pkt: array<Byte>, n: nat, newDst: Addr) returns (ok: bool)
    requires n <= pkt.Length && n <= MAX_SEGMENT
    modifies pkt
    ensures ok <==> Rewritable(old(pkt[..n]))
    ensures pkt[..n] == if ok then Rewritten(old(pkt[..n]), Destination, newDst) else old(pkt[..n])
    ensures pkt[n..] == old(pkt[n..])
  {
    if n < 20 || pkt[0] / 16 != 4 {
      return false;
    }
    var ihl := pkt[0] % 16 * 4;
    if n < ihl {
      return false;
    }
    ghost var p := pkt[..n];
    StoreAddr(pkt, 16, newDst);
    assert pkt[..n] == PutAddr(p, Destination, newDst);
    StoreHeaderSum(pkt, n, ihl);
    var src := pkt[12..16];
    assert pkt[..n][12..16] == src;
    assert pkt[..n][16..20] == newDst;
    StoreL4Sum(pkt, n, ihl, src, newDst);
    ok := true;
  }
}

/** Packets in terms of their bytes: what parsing reads where, and the sums a receiver forms. */
module Wire {
  import opened Bytes
  import opened Text
  import opened Checksum
  import opened Rewrite
  import opened Packet
  import opened Ipv6Text
  import RewriteLaws

  /** The big-endian number in bytes `at` and `at + 1`. */
  function Be16(p: seq<Byte>, at: nat): nat
    requires at + 2 <= |p|
  {
    var high: nat, low: nat := p[at], p[at + 1];
    high * 256 + low
  }

  // ----- What parsing reads -----

  /** The ports are the first two words of a TCP or UDP segment, when it has them, and 0 otherwise. */
  predicate PortsOf(p: seq<Byte>, sport: U16, dport: U16)
    requires |p| >= 20
  {
    var ihl := 4 * (p[0] % 16);
    if (p[9] == 6 || p[9] == 17) && |p| >= ihl + 4 then sport == Be16(p, ihl) && dport == Be16(p, ihl + 2)
    else sport == 0 && dport == 0
  }

  /** Every field of an IPv4 flow is read from its place in the packet. */
  lemma V4FlowIsBytes(p: seq<Byte>)
    requires WellFormed(p)
    ensures Parsed(p).Some?
    ensures var f := Parsed(p).value;
            && f.proto == p[9] && PortsOf(p, f.sport, f.dport)
            && ParseAddr(f.src) == Some(p[12..16]) && ParseAddr(f.dst) == Some(p[16..20])
  {
    V4AddressesReadBack(p);
  }

  /** A header of `ihl` bytes followed by a TCP or UDP segment parses to what was put in. */
  lemma V4HeaderParses(header: seq<Byte>, segment: seq<Byte>, src: Addr, dst: Addr, proto: Byte, sport: U16, dport: U16)
    requires 20 <= |header| <= 60 && |header| % 4 == 0 && header[0] == 0x40 + |header| / 4
    requires header[9] == proto && (proto == 6 || proto == 17)
    requires header[12..16] == src && header[16..20] == dst
    requires |segment| >= 4 && Be16(segment, 0) == sport && Be16(segment, 2) == dport
    ensures Parsed(header + segment) == Some(Flow(Render(src), Render(dst), proto, sport, dport))
  {
    var p := header + segment;
    assert p[12..16] == src && p[16..20] == dst;
    assert Field(p, |header|) == Be16(segment, 0) && Field(p, |header| + 2) == Be16(segment, 2);
  }

  /** The flow key of an IPv4 packet, in the packet's own octets and numbers. */
  lemma V4KeyText(p: seq<Byte>, sport: U16, dport: U16)
    requires WellFormed(p) && PortsOf(p, sport, dport)
    ensures Parsed(p).Some?
    ensures Parsed(p).value.Key() == Render(p[12..16]) + ":" + Dec(sport) + "->" + Render(p[16..20]) + ":" + Dec(dport)
  {
    V4FlowIsBytes(p);
  }

  /** 10.0.0.1 port 8080 to 8.8.8.8 port 443. */
  lemma KeyKnownText(p: seq<Byte>)
    requires WellFormed(p) && p[12..16] == [10, 0, 0, 1] && p[16..20] == [8, 8, 8, 8]
    requires PortsOf(p, 8080, 443)
    ensures Parsed(p).Some?
    ensures Parsed(p).value.Key() == "10.0.0.1" + ":" + "8080" + "->" + "8.8.8.8" + ":" + "443"
  {
    V4KeyText(p, 8080, 443);
    KnownNumbers();
    KnownAddresses();
  }

  lemma KnownNumbers()
    ensures Dec(8080) == "8080" && Dec(443) == "443"
  {
    assert Dec(80) == "80" && Dec(808) == "808";
    assert Dec(44) == "44";
  }

  lemma KnownAddresses()
    ensures Render([10, 0, 0, 1]) == "10.0.0.1" && Render([8, 8, 8, 8]) == "8.8.8.8"
  {
    assert Dec(10) == "10";
  }

  /** The address texts of an IPv6 flow come from bytes 8..24 and 24..40, source first. */
  lemma V6AddressText(p: seq<Byte>, src: seq<U16>, dst: seq<U16>)
    requires |p| >= 40 && p[0] / 16 == 6 && Parsed(p).Some?
    requires |src| == 8 && forall i :: 0 <= i < 8 ==> src[i] == Be16(p, 8 + 2 * i)
    requires |dst| == 8 && forall i :: 0 <= i < 8 ==> dst[i] == Be16(p, 24 + 2 * i)
    ensures Parsed(p).value.src == Ip6Text(src) && Parsed(p).value.dst == Ip6Text(dst)
  {
    assert Hextets(p[8..24]) == src;
    assert Hextets(p[24..40]) == dst;
  }

  /** A first header that is neither an extension to step over nor TCP nor UDP ends the walk, without ports. */
  lemma V6OtherHeaderStops(p: seq<Byte>)
    requires |p| >= 40 && p[0] / 16 == 6
    requires p[6] !in [0, 6, 17, 43, 60, 135]
    ensures Parsed(p).Some?
    ensures Parsed(p).value.proto == p[6] && Parsed(p).value.sport == 0 && Parsed(p).value.dport == 0
  {}

  /** A packet parses as IPv4 exactly when it has its whole header, and that header at least 20 bytes. */
  lemma V4AcceptedExactly(p: seq<Byte>)
    ensures |p| == 0 || (p[0] / 16 != 4 && p[0] / 16 != 6) ==> Parsed(p) == None
    ensures |p| > 0 && p[0] / 16 == 4 ==>
              (Parsed(p).Some? <==> |p| >= 20 && p[0] % 16 >= 5 && |p| >= 4 * (p[0] % 16))
    ensures |p| > 0 && p[0] / 16 == 6 && |p| < 40 ==> Parsed(p) == None
  {}

  /**
   * One extension header: without its first two bytes the packet is refused; with them the type and the
   * place of what follows are read, and the ports when they are there, even if the header itself is cut short.
   */
  lemma V6OneExtension(p: seq<Byte>)
    requires |p| >= 40 && p[0] / 16 == 6 && p[6] in [0, 43, 60, 135]
    requires |p| >= 42 ==> p[40] !in [0, 43, 60, 135]
    ensures |p| < 42 ==> Parsed(p) == None
    ensures |p| >= 42 ==>
              var units: nat := p[41];
              var at := 40 + 8 * (units + 1);
              && Parsed(p).Some? && Parsed(p).value.proto == p[40]
              && (if p[40] in [6, 17] && |p| >= at + 4
                  then Parsed(p).value.sport == Be16(p, at) && Parsed(p).value.dport == Be16(p, at + 2)
                  else Parsed(p).value.sport == 0 && Parsed(p).value.dport == 0)
  {
    if |p| >= 42 {
      OneHeaderWalk(p);
    }
  }

  lemma OneHeaderWalk(p: seq<Byte>)
    requires |p| >= 42 && IsExtension(p[6]) && !IsExtension(p[40])
    ensures WalkHeaders(p, p[6], 40, MAX_EXTENSIONS) == At(p[40], 40 + ExtensionLength(p[41]))
  {
    var at := 40 + ExtensionLength(p[41]);
    assert WalkHeaders(p, p[40], at, MAX_EXTENSIONS - 1) == At(p[40], at);
  }

  // ----- What a receiver adds up -----

  /** Byte `i` counts 256 times when `i` is even and once when it is odd. */
  function Weighted(s: seq<Byte>): nat {
    if |s| == 0 then 0
    else
      var i := |s| - 1;
      var b: nat := s[i];
      Weighted(s[..i]) + if i % 2 == 0 then b * 256 else b
  }

  lemma {:induction false} WordSumIsWeighted(s: seq<Byte>)
    ensures WordSum(s) == Weighted(s)
  {
    if |s| > 0 {
      var i := |s| - 1;
      WordSumIsWeighted(s[..i]);
      if i % 2 == 0 {
        WordSumTail(s, i);
      } else {
        WordSumTail(s[..i], i - 1);
        WordSumStep(s, i - 1);
        assert s[..i][..i - 1] == s[..i - 1] && s[..i + 1] == s;
      }
    }
  }

  lemma FourWords(s: seq<Byte>)
    requires |s| == 8
    ensures WordSum(s) == Be16(s, 0) + Be16(s, 2) + Be16(s, 4) + Be16(s, 6)
  {
    assert s[2..][2..] == s[4..] && s[4..][2..] == s[6..] && s[6..][2..] == [];
    assert WordSum(s[6..]) == Be16(s, 6);
    assert WordSum(s[4..]) == Be16(s, 4) + WordSum(s[6..]);
    assert WordSum(s[2..]) == Be16(s, 2) + WordSum(s[4..]);
  }

  lemma TwoWords(s: seq<Byte>)
    requires |s| == 4
    ensures WordSum(s) == Be16(s, 0) + Be16(s, 2)
  {
    assert s[2..][2..] == [] && WordSum(s[2..]) == Be16(s, 2);
  }

  lemma SixWords(s: seq<Byte>)
    requires |s| == 12
    ensures WordSum(s) == Be16(s, 0) + Be16(s, 2) + Be16(s, 4) + Be16(s, 6) + Be16(s, 8) + Be16(s, 10)
  {
    FourWords(s[..8]);
    TwoWords(s[8..]);
    WordSumAppend(s[..8], s[8..]);
    assert s == s[..8] + s[8..];
  }

  lemma PseudoHeaderBytes(src: Addr, dst: Addr, proto: Byte, len: nat)
    ensures var h := PseudoHeader(src, dst, proto, len);
            && Be16(h, 0) == Be16(src, 0) && Be16(h, 2) == Be16(src, 2)
            && Be16(h, 4) == Be16(dst, 0) && Be16(h, 6) == Be16(dst, 2)
            && Be16(h, 8) == proto && Be16(h, 10) == len % 65536
  {
    var h := PseudoHeader(src, dst, proto, len);
    assert forall k :: 0 <= k < 4 ==> h[k] == src[k] && h[4 + k] == dst[k];
    assert h[8] == 0 && h[9] == proto && h[10] == len % 65536 / 256 && h[11] == len % 256;
  }

  /** The words of the pseudo-header: the two addresses, the protocol and the 16-bit length. */
  lemma PseudoHeaderSum(src: Addr, dst: Addr, proto: Byte, len: nat)
    ensures WordSum(PseudoHeader(src, dst, proto, len)) ==
            Be16(src, 0) + Be16(src, 2) + Be16(dst, 0) + Be16(dst, 2) + proto + len % 65536
  {
    SixWords(PseudoHeader(src, dst, proto, len));
    PseudoHeaderBytes(src, dst, proto, len);
  }

  /** A 16-bit ones' complement sum of all ones, and so a checksum of zero. */
  predicate AllOnes(n: nat) { n > 0 && n % 65535 == 0 }

  /**
   * The check of RFC 793 section 3.1 on a whole IPv4 packet: addresses, protocol, segment length and
   * the segment itself add up to all ones.
   */
  predicate SegmentAccepted(q: seq<Byte>)
    requires |q| >= 20 && 4 * (q[0] % 16) <= |q|
  {
    var ihl := 4 * (q[0] % 16);
    AllOnes(Be16(q, 12) + Be16(q, 14) + Be16(q, 16) + Be16(q, 18) + q[9] + (|q| - ihl) % 65536 + Weighted(q[ihl..]))
  }

  /** The check of RFC 791 section 3.1 on the header. */
  predicate HeaderAccepted(q: seq<Byte>)
    requires |q| >= 20 && 4 * (q[0] % 16) <= |q|
  {
    AllOnes(Weighted(q[..4 * (q[0] % 16)]))
  }

  lemma AllOnesExactly(n: nat)
    ensures AllOnes(n) <==> Rep(n) == 65535
  {}

  /** What the code recomputes is what those checks ask for. */
  lemma HeaderAcceptedExactly(q: seq<Byte>)
    requires WellFormed(q)
    ensures HeaderAccepted(q) <==> RewriteLaws.HeaderVerifies(q)
  {
    WordSumIsWeighted(q[..Ihl(q)]);
    AllOnesExactly(WordSum(q[..Ihl(q)]));
  }

  lemma SegmentAcceptedExactly(q: seq<Byte>)
    requires WellFormed(q)
    ensures SegmentAccepted(q) <==> RewriteLaws.L4Verifies(q)
  {
    var src, dst, l4 := GetAddr(q, Source), GetAddr(q, Destination), q[Ihl(q)..];
    var ph := PseudoHeader(src, dst, q[9], |l4|);
    WordSumIsWeighted(l4);
    WordSumAppend(ph, l4);
    PseudoHeaderSum(src, dst, q[9], |l4|);
    AllOnesExactly(WordSum(ph + l4));
  }

  /** The transport checksum is the complement of the same sum with bytes 16 and 17 counted as zero. */
  lemma TransportChecksumExactly(src: Addr, dst: Addr, proto: Byte, l4: seq<Byte>, z: seq<Byte>)
    requires |z| == |l4|
    requires forall j :: 0 <= j < |l4| ==> z[j] == if |l4| >= 18 && (j == 16 || j == 17) then 0 else l4[j]
    ensures TransportChecksumOf(src, dst, proto, l4) ==
            65535 - Rep(Be16(src, 0) + Be16(src, 2) + Be16(dst, 0) + Be16(dst, 2) + proto + |l4| % 65536 + Weighted(z))
  {
    assert ZeroField(l4) == z;
    WordSumIsWeighted(z);
    WordSumAppend(PseudoHeader(src, dst, proto, |l4|), z);
    PseudoHeaderSum(src, dst, proto, |l4|);
  }

  /** What the two rewrites leave behind: both checks pass, for TCP and UDP with 18 segment bytes. */
  lemma RewrittenAccepted(p: seq<Byte>, side: Side, a: Addr)
    requires WellFormed(p)
    ensures var q := Rewritten(p, side, a);
            && |q| == |p| && q[0] == p[0] && HeaderAccepted(q)
            && (if side.Source? then q[12..16] else q[16..20]) == a
            && ((p[9] == 6 || p[9] == 17) && |p| >= 4 * (p[0] % 16) + 18 ==> SegmentAccepted(q))
  {
    RewriteLaws.RewrittenShape(p, side, a);
    RewriteLaws.RewriteFrame(p, side, a, 0);
    RewriteLaws.RewrittenVerifies(p, side, a);
    HeaderAcceptedExactly(Rewritten(p, side, a));
    SegmentAcceptedExactly(Rewritten(p, side, a));
  }

  /** The classic header 4500 0073 0000 4000 4011 0000 c0a8 0001 c0a8 00c7. */
  lemma ChecksumKnownVector(h: seq<Byte>)
    requires |h| == 20
    requires Be16(h, 0) == 0x4500 && Be16(h, 2) == 0x0073 && Be16(h, 4) == 0x0000 && Be16(h, 6) == 0x4000
    requires Be16(h, 8) == 0x4011 && Be16(h, 10) == 0x0000 && Be16(h, 12) == 0xc0a8 && Be16(h, 14) == 0x0001
    requires Be16(h, 16) == 0xc0a8 && Be16(h, 18) == 0x00c7
    ensures ChecksumOf(h) == 0xb861
  {
    SixWords(h[..12]);
    FourWords(h[12..]);
    WordSumAppend(h[..12], h[12..]);
    assert h == h[..12] + h[12..];
  }

  /** The byte that is left over in data of odd length is the high half of a word. */
  lemma ChecksumKnownOdd(s: seq<Byte>)
    requires |s| == 3 && Be16(s, 0) == 0x0102 && s[2] == 0x03
    ensures ChecksumOf(s) == 0xfbfd
  {
    var high: nat := s[2];
    assert |s[2..]| == 1 && WordSum(s[2..]) == high * 256;
  }
}

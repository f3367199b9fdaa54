/** Laws of the address rewrites on the whole packet, and the checks a receiver makes on the result. */
module RewriteLaws {
  import opened Bytes
  import opened Checksum
  import opened Rewrite

  // ----- A rewrite depends only on the packet without its checksum fields -----

  /** The packet with the checksum fields a rewrite recomputes set to 0. */
  function Blank(p: seq<Byte>): (q: seq<Byte>)
    requires WellFormed(p)
    ensures |q| == |p|
  {
    var h := Put16(p, 10, 0);
    if HasL4Field(p) then Put16(h, Ihl(p) + 16, 0) else h
  }

  function FixAll(p: seq<Byte>): (q: seq<Byte>)
    requires Rewritable(p)
    ensures |q| == |p|
  {
    FixL4(FixHeader(p))
  }

  lemma FixKeepsShape(p: seq<Byte>)
    requires WellFormed(p)
    ensures WellFormed(FixAll(p)) && Ihl(FixAll(p)) == Ihl(p)
    ensures HasL4Field(FixAll(p)) == HasL4Field(p)
    ensures forall j | 0 <= j < |p| && j != 10 && j != 11 && !(HasL4Field(p) && Ihl(p) + 16 <= j < Ihl(p) + 18) ::
              FixAll(p)[j] == p[j]
  {}

  lemma HeaderSumOfBlank(p: seq<Byte>)
    requires WellFormed(p)
    ensures WellFormed(Blank(p)) && Ihl(Blank(p)) == Ihl(p)
    ensures HasL4Field(Blank(p)) == HasL4Field(p)
    ensures Put16(p, 10, 0)[..Ihl(p)] == Blank(p)[..Ihl(p)]
    ensures HeaderSum(p) == HeaderSum(Blank(p))
  {
    assert Put16(Blank(p), 10, 0)[..Ihl(p)] == Blank(p)[..Ihl(p)];
  }

  lemma L4SumOfBlank(p: seq<Byte>, q: seq<Byte>)
    requires WellFormed(p) && HasL4Field(p) && WellFormed(q) && |p| == |q|
    requires p[0] == q[0] && p[9] == q[9] && p[12..20] == q[12..20]
    requires ZeroField(p[Ihl(p)..]) == ZeroField(q[Ihl(p)..])
    ensures L4Sum(p) == L4Sum(q)
  {
    assert p[12..16] == p[12..20][..4] && p[16..20] == p[12..20][4..];
    assert q[12..16] == q[12..20][..4] && q[16..20] == q[12..20][4..];
  }

  lemma ZeroFieldOfTail(p: seq<Byte>, q: seq<Byte>, at: nat)
    requires at + 18 <= |p| == |q|
    requires forall j :: at <= j < |p| && j != at + 16 && j != at + 17 ==> p[j] == q[j]
    ensures ZeroField(p[at..]) == ZeroField(q[at..])
  {}

  lemma FixOfBlank(p: seq<Byte>)
    requires WellFormed(p)
    ensures WellFormed(Blank(p)) && FixAll(Blank(p)) == FixAll(p)
  {
    var b := Blank(p);
    HeaderSumOfBlank(p);
    var h, g := FixHeader(p), FixHeader(b);
    if HasL4Field(p) {
      var at := Ihl(p);
      assert h[12..20] == g[12..20];
      ZeroFieldOfTail(h, g, at);
      L4SumOfBlank(h, g);
    }
    assert FixAll(b) == FixAll(p);
  }

  lemma BlankOfFix(p: seq<Byte>)
    requires WellFormed(p)
    ensures WellFormed(FixAll(p)) && Blank(FixAll(p)) == Blank(p)
  {
    FixKeepsShape(p);
  }

  lemma BlankOfPutAddr(p: seq<Byte>, side: Side, a: Addr)
    requires WellFormed(p)
    ensures WellFormed(PutAddr(p, side, a)) && WellFormed(Blank(p))
    ensures Blank(PutAddr(p, side, a)) == PutAddr(Blank(p), side, a)
  {}

  lemma SameBlankSameFix(p: seq<Byte>, q: seq<Byte>)
    requires WellFormed(p) && WellFormed(q) && Blank(p) == Blank(q)
    ensures FixAll(p) == FixAll(q)
  {
    FixOfBlank(p);
    FixOfBlank(q);
  }

  lemma RewrittenShape(p: seq<Byte>, side: Side, a: Addr)
    requires WellFormed(p)
    ensures var q := Rewritten(p, side, a);
            && WellFormed(q) && |q| == |p| && Ihl(q) == Ihl(p) && HasL4Field(q) == HasL4Field(p)
            && GetAddr(q, side) == a
  {
    var q := PutAddr(p, side, a);
    FixKeepsShape(q);
    assert GetAddr(FixAll(q), side) == a;
  }

  /** Fixing checksums first makes no difference to a rewrite. */
  lemma RewriteAfterFix(p: seq<Byte>, side: Side, a: Addr)
    requires WellFormed(p)
    ensures WellFormed(FixAll(p)) && Rewritten(FixAll(p), side, a) == Rewritten(p, side, a)
  {
    BlankOfFix(p);
    BlankOfPutAddr(p, side, a);
    BlankOfPutAddr(FixAll(p), side, a);
    SameBlankSameFix(PutAddr(FixAll(p), side, a), PutAddr(p, side, a));
  }

  // ----- The laws -----

  /** No byte changes outside the address, the header checksum and the word at segment offset 16. */
  lemma RewriteFrame(p: seq<Byte>, side: Side, a: Addr, j: nat)
    requires WellFormed(p) && j < |p|
    requires !(10 <= j < 12) && !(side.Offset() <= j < side.Offset() + 4)
    requires !(HasL4Field(p) && Ihl(p) + 16 <= j < Ihl(p) + 18)
    ensures |Rewritten(p, side, a)| == |p| && Rewritten(p, side, a)[j] == p[j]
  {
    FixKeepsShape(PutAddr(p, side, a));
  }

  /** Two rewrites of the same side equal the last one alone. */
  lemma LastRewriteWins(p: seq<Byte>, side: Side, a: Addr, b: Addr)
    requires WellFormed(p)
    ensures WellFormed(Rewritten(p, side, a))
    ensures Rewritten(Rewritten(p, side, a), side, b) == Rewritten(p, side, b)
  {
    var q := PutAddr(p, side, a);
    RewriteAfterFix(q, side, b);
    assert PutAddr(q, side, b) == PutAddr(p, side, b);
  }

  lemma PutAddrCommutes(p: seq<Byte>, a: Addr, b: Addr)
    requires |p| >= 20
    ensures PutAddr(PutAddr(p, Source, a), Destination, b) == PutAddr(PutAddr(p, Destination, b), Source, a)
  {}

  /** Source and destination rewrites commute. */
  lemma RewritesCommute(p: seq<Byte>, a: Addr, b: Addr)
    requires WellFormed(p)
    ensures WellFormed(Rewritten(p, Source, a)) && WellFormed(Rewritten(p, Destination, b))
    ensures Rewritten(Rewritten(p, Source, a), Destination, b) ==
            Rewritten(Rewritten(p, Destination, b), Source, a)
  {
    var s, d := PutAddr(p, Source, a), PutAddr(p, Destination, b);
    RewriteAfterFix(s, Destination, b);
    RewriteAfterFix(d, Source, a);
    PutAddrCommutes(p, a, b);
  }

  // ----- What a receiver checks -----

  /** RFC 1071 section 1 on the IPv4 header. */
  predicate HeaderVerifies(p: seq<Byte>)
    requires Rewritable(p)
  {
    ChecksumOf(p[..Ihl(p)]) == 0
  }

  /** The pseudo-header followed by the whole segment, checksum field included, sums to zero. */
  predicate L4Verifies(p: seq<Byte>)
    requires Rewritable(p)
  {
    ChecksumOf(PseudoHeader(GetAddr(p, Source), GetAddr(p, Destination), p[9], |p| - Ihl(p)) + p[Ihl(p)..]) == 0
  }

  lemma PositiveSum(s: seq<Byte>, i: nat)
    requires i < |s| && s[i] != 0
    ensures WordSum(s) > 0 && ChecksumOf(s) != 65535
  {
    WordSumZero(s);
  }

  lemma HeaderVerifiesExactly(p: seq<Byte>)
    requires WellFormed(p)
    ensures HeaderSum(p) != 65535
    ensures HeaderVerifies(p) <==>
              Field(p, 10) == HeaderSum(p) || (HeaderSum(p) == 0 && Field(p, 10) == 65535)
  {
    var b := Put16(p, 10, 0);
    assert b[0] == p[0];
    FieldOfPut16(p, 10, 0);
    ZeroedPrefix(p, b, Ihl(p));
  }

  lemma ZeroedPrefix(p: seq<Byte>, b: seq<Byte>, n: nat)
    requires 20 <= n <= |p| == |b| && b[0] != 0 && Field(b, 10) == 0
    requires forall j :: 0 <= j < |p| && j != 10 && j != 11 ==> b[j] == p[j]
    ensures ChecksumOf(b[..n]) != 65535
    ensures ChecksumOf(p[..n]) == 0 <==>
              Field(p, 10) == ChecksumOf(b[..n]) || (ChecksumOf(b[..n]) == 0 && Field(p, 10) == 65535)
  {
    var s, z := p[..n], b[..n];
    assert z[0] == b[0];
    PositiveSum(z, 0);
    VerifiesExactly(s, z, 10);
  }

  lemma L4VerifiesExactly(p: seq<Byte>)
    requires WellFormed(p) && HasL4Field(p)
    ensures L4Sum(p) != 65535
    ensures L4Verifies(p) <==>
              Field(p, Ihl(p) + 16) == L4Sum(p) || (L4Sum(p) == 0 && Field(p, Ihl(p) + 16) == 65535)
  {
    var l4 := p[Ihl(p)..];
    var ph := PseudoHeader(GetAddr(p, Source), GetAddr(p, Destination), p[9], |l4|);
    assert ph[9] == p[9];
    SegmentVerifies(ph, l4);
    assert Field(l4, 16) == Field(p, Ihl(p) + 16);
  }

  lemma SegmentVerifies(ph: seq<Byte>, l4: seq<Byte>)
    requires |ph| == 12 && ph[9] != 0 && |l4| >= 18
    ensures ChecksumOf(ph + ZeroField(l4)) != 65535
    ensures ChecksumOf(ph + l4) == 0 <==>
              Field(l4, 16) == ChecksumOf(ph + ZeroField(l4)) ||
              (ChecksumOf(ph + ZeroField(l4)) == 0 && Field(l4, 16) == 65535)
  {
    FieldOfPut16(l4, 16, 0);
    ZeroedSegmentVerifies(ph, l4, ZeroField(l4));
  }

  lemma ZeroedSegmentVerifies(ph: seq<Byte>, l4: seq<Byte>, z4: seq<Byte>)
    requires |ph| == 12 && ph[9] != 0 && 18 <= |l4| == |z4|
    requires forall j :: 0 <= j < |l4| && j != 16 && j != 17 ==> z4[j] == l4[j]
    requires Field(z4, 16) == 0
    ensures ChecksumOf(ph + z4) != 65535
    ensures ChecksumOf(ph + l4) == 0 <==>
              Field(l4, 16) == ChecksumOf(ph + z4) || (ChecksumOf(ph + z4) == 0 && Field(l4, 16) == 65535)
  {
    AgreeAround(ph, l4, z4);
    NonzeroVerifies(ph + l4, ph + z4, 9, 28);
  }

  lemma NonzeroVerifies(s: seq<Byte>, z: seq<Byte>, i: nat, k: nat)
    requires k % 2 == 0 && k + 2 <= |z| == |s| && i < |z| && z[i] != 0
    requires z[..k] == s[..k] && z[k + 2..] == s[k + 2..] && Field(z, k) == 0
    ensures ChecksumOf(z) != 65535
    ensures ChecksumOf(s) == 0 <==>
              Field(s, k) == ChecksumOf(z) || (ChecksumOf(z) == 0 && Field(s, k) == 65535)
  {
    PositiveSum(z, i);
    VerifiesExactly(s, z, k);
  }

  lemma AgreeAround(ph: seq<Byte>, l4: seq<Byte>, z4: seq<Byte>)
    requires |ph| == 12 && 18 <= |l4| == |z4|
    requires forall j :: 0 <= j < |l4| && j != 16 && j != 17 ==> z4[j] == l4[j]
    ensures (ph + z4)[..28] == (ph + l4)[..28] && (ph + z4)[30..] == (ph + l4)[30..]
    ensures Field(ph + z4, 28) == Field(z4, 16) && Field(ph + l4, 28) == Field(l4, 16)
  {}

  lemma FixStoresSums(p: seq<Byte>)
    requires WellFormed(p)
    ensures var q := FixAll(p);
            && WellFormed(q) && HasL4Field(q) == HasL4Field(p) && Ihl(q) == Ihl(p)
            && Field(q, 10) == HeaderSum(q) == HeaderSum(p)
            && (HasL4Field(p) ==> Field(q, Ihl(p) + 16) == L4Sum(q) == L4Sum(p))
  {
    var q, h := FixAll(p), FixHeader(p);
    FixKeepsShape(p);
    FieldOfPut16(p, 10, HeaderSum(p));
    assert Put16(q, 10, 0)[..Ihl(p)] == Put16(p, 10, 0)[..Ihl(p)];
    if HasL4Field(p) {
      var at := Ihl(p);
      assert h[12..20] == p[12..20] == q[12..20];
      ZeroFieldOfTail(h, p, at);
      ZeroFieldOfTail(h, q, at);
      L4SumOfBlank(h, p);
      L4SumOfBlank(h, q);
      FieldOfPut16(h, at + 16, L4Sum(h));
    }
  }

  /**
   * After a rewrite the header passes the receiver's check, and so does the TCP segment whatever
   * the parity of its length. For UDP the whole-datagram sum is zero as well, at the price of two
   * payload bytes (see UdpPayloadKeptExactly).
   */
  lemma RewrittenVerifies(p: seq<Byte>, side: Side, a: Addr)
    requires WellFormed(p)
    ensures Rewritable(Rewritten(p, side, a)) && HeaderVerifies(Rewritten(p, side, a))
    ensures HasL4Field(p) ==> L4Verifies(Rewritten(p, side, a))
  {
    var q := PutAddr(p, side, a);
    FixStoresSums(q);
    HeaderVerifiesExactly(FixAll(q));
    if HasL4Field(p) {
      L4VerifiesExactly(FixAll(q));
    }
  }

  // ----- Rewriting away and back -----

  function Restored(p: seq<Byte>, side: Side, a: Addr): seq<Byte>
    requires WellFormed(p)
  {
    RewrittenShape(p, side, a);
    Rewritten(Rewritten(p, side, a), side, GetAddr(p, side))
  }

  lemma RestoredIsFixed(p: seq<Byte>, side: Side, a: Addr)
    requires WellFormed(p)
    ensures Restored(p, side, a) == FixAll(p)
  {
    LastRewriteWins(p, side, a, GetAddr(p, side));
    assert PutAddr(p, side, GetAddr(p, side)) == p;
  }

  lemma FixIsIdentityExactly(p: seq<Byte>)
    requires WellFormed(p)
    ensures FixAll(p) == p <==>
              Field(p, 10) == HeaderSum(p) && (HasL4Field(p) ==> Field(p, Ihl(p) + 16) == L4Sum(p))
  {
    FixStoresSums(p);
    if Field(p, 10) == HeaderSum(p) {
      Put16OfField(p, 10);
      if HasL4Field(p) && Field(p, Ihl(p) + 16) == L4Sum(p) {
        Put16OfField(p, Ihl(p) + 16);
      }
    }
  }

  /**
   * Rewriting away and back gives the packet back byte for byte exactly when its checksums verify
   * and neither field uses 0xffff for zero.
   */
  lemma RestoredExactly(p: seq<Byte>, side: Side, a: Addr)
    requires WellFormed(p)
    ensures Restored(p, side, a) == p <==>
              && HeaderVerifies(p) && Field(p, 10) != 65535
              && (HasL4Field(p) ==> L4Verifies(p) && Field(p, Ihl(p) + 16) != 65535)
  {
    RestoredIsFixed(p, side, a);
    FixIsIdentityExactly(p);
    HeaderVerifiesExactly(p);
    if HasL4Field(p) {
      L4VerifiesExactly(p);
    }
  }

  function ZeroForAllOnes(p: seq<Byte>, k: nat): (q: seq<Byte>)
    requires k + 2 <= |p|
    ensures |q| == |p|
  {
    if Field(p, k) == 65535 then Put16(p, k, 0) else p
  }

  /** The packet with 0x0000 in place of a 0xffff checksum field. */
  function Canonical(p: seq<Byte>): (q: seq<Byte>)
    requires WellFormed(p)
  {
    var h := ZeroForAllOnes(p, 10);
    if HasL4Field(p) then ZeroForAllOnes(h, Ihl(p) + 16) else h
  }

  lemma L4AfterHeader(p: seq<Byte>)
    requires WellFormed(p) && HasL4Field(p)
    ensures var h := FixHeader(p);
            && WellFormed(h) && HasL4Field(h) && Ihl(h) == Ihl(p)
            && L4Sum(h) == L4Sum(p) && Field(h, Ihl(p) + 16) == Field(p, Ihl(p) + 16)
  {
    var h := FixHeader(p);
    assert h[12..20] == p[12..20];
    ZeroFieldOfTail(h, p, Ihl(p));
    L4SumOfBlank(h, p);
  }

  /** A packet whose checksums verify comes back with only a 0xffff field turned into 0x0000. */
  lemma RestoredUpToZero(p: seq<Byte>, side: Side, a: Addr)
    requires WellFormed(p) && HeaderVerifies(p)
    requires HasL4Field(p) ==> L4Verifies(p)
    ensures Restored(p, side, a) == Canonical(p)
  {
    RestoredIsFixed(p, side, a);
    HeaderFixIsCanonical(p);
    if HasL4Field(p) {
      L4FixIsCanonical(p);
    }
  }

  lemma HeaderFixIsCanonical(p: seq<Byte>)
    requires WellFormed(p) && HeaderVerifies(p)
    ensures FixHeader(p) == ZeroForAllOnes(p, 10)
  {
    HeaderVerifiesExactly(p);
    StoreOrZero(p, 10, HeaderSum(p));
  }

  lemma L4FixIsCanonical(p: seq<Byte>)
    requires WellFormed(p) && HasL4Field(p) && L4Verifies(p)
    ensures FixL4(FixHeader(p)) == ZeroForAllOnes(FixHeader(p), Ihl(p) + 16)
  {
    L4VerifiesExactly(p);
    L4AfterHeader(p);
    StoreOrZero(FixHeader(p), Ihl(p) + 16, L4Sum(p));
  }

  lemma StoreOrZero(p: seq<Byte>, k: nat, w: U16)
    requires k + 2 <= |p| && w != 65535
    requires Field(p, k) == w || (w == 0 && Field(p, k) == 65535)
    ensures Put16(p, k, w) == ZeroForAllOnes(p, k)
  {
    Put16OfField(p, k);
  }

  // ----- UDP: the word at offset 16 is payload -----

  /** The payload of a UDP datagram starts at segment offset 8 (RFC 768). */
  function UdpPayload(p: seq<Byte>): seq<Byte>
    requires WellFormed(p) && |p| >= Ihl(p) + 8
  {
    p[Ihl(p) + 8..]
  }

  /**
   * A rewrite keeps the UDP payload exactly when the datagram has fewer than 10 payload bytes or
   * the payload word at segment offset 16 already equals the sum about to be stored there.
   */
  lemma UdpPayloadKeptExactly(p: seq<Byte>, side: Side, a: Addr)
    requires WellFormed(p) && p[9] == UDP && |p| >= Ihl(p) + 8
    ensures var q := Rewritten(p, side, a);
            && WellFormed(q) && |q| == |p| && Ihl(q) == Ihl(p)
            && (UdpPayload(q) == UdpPayload(p) <==>
                  |p| < Ihl(p) + 18 || Field(p, Ihl(p) + 16) == L4Sum(PutAddr(p, side, a)))
  {
    RewrittenShape(p, side, a);
    var q := Rewritten(p, side, a);
    forall j | Ihl(p) + 8 <= j < |p| && !(HasL4Field(p) && Ihl(p) + 16 <= j < Ihl(p) + 18) ensures q[j] == p[j] {
      RewriteFrame(p, side, a, j);
    }
    if HasL4Field(p) {
      FixStoresSums(PutAddr(p, side, a));
      TailsEqualExactly(p, q, Ihl(p) + 8, Ihl(p) + 16);
    }
  }

  /** Tails that agree outside one word are equal exactly when that word is. */
  lemma TailsEqualExactly(p: seq<Byte>, q: seq<Byte>, from: nat, k: nat)
    requires from <= k && k + 2 <= |p| == |q|
    requires forall j :: from <= j < |p| && j != k && j != k + 1 ==> q[j] == p[j]
    ensures q[from..] == p[from..] <==> Field(q, k) == Field(p, k)
  {
    if q[from..] == p[from..] {
      assert q[from..][k - from] == q[k] && q[from..][k + 1 - from] == q[k + 1];
    }
    if Field(q, k) == Field(p, k) {
      SameFieldSameBytes(p, q, k);
    }
  }

  lemma SameFieldSameBytes(p: seq<Byte>, q: seq<Byte>, k: nat)
    requires k + 2 <= |p| && k + 2 <= |q| && Field(p, k) == Field(q, k)
    ensures p[k] == q[k] && p[k + 1] == q[k + 1]
  {}

  /** Every UDP datagram with ff ff at payload offset 8 has its payload changed by every rewrite. */
  lemma UdpPayloadCorrupted(p: seq<Byte>, side: Side, a: Addr)
    requires WellFormed(p) && p[9] == UDP && |p| >= Ihl(p) + 18
    requires Field(p, Ihl(p) + 16) == 65535
    ensures WellFormed(Rewritten(p, side, a)) && Ihl(Rewritten(p, side, a)) == Ihl(p)
    ensures |Rewritten(p, side, a)| == |p|
    ensures UdpPayload(Rewritten(p, side, a)) != UdpPayload(p)
  {
    UdpPayloadKeptExactly(p, side, a);
    L4VerifiesExactly(PutAddr(p, side, a));
  }
}

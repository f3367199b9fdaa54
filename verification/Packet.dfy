/** Flow parsing of IPv4 and IPv6 packets, and how it meets the address rewrites. */
module Packet {
  import opened Bytes
  import opened Text
  import opened Ipv6Text
  import opened Rewrite
  import RewriteLaws

  datatype Flow = Flow(src: string, dst: string, proto: Byte, sport: U16, dport: U16) {
    /** The identifier that is hashed and logged; it leaves the protocol out. */
    function Key(): string {
      src + ":" + Dec(sport) + "->" + dst + ":" + Dec(dport)
    }
  }

  function ParseV4(p: seq<Byte>): Option<Flow>
    requires |p| > 0
  {
    if |p| < 20 then None
    else if Ihl(p) < 20 || |p| < Ihl(p) then None
    else
      var ports := (p[9] == TCP || p[9] == UDP) && |p| >= Ihl(p) + 4;
      Some(Flow(Render(p[12..16]), Render(p[16..20]), p[9],
                if ports then Field(p, Ihl(p)) else 0,
                if ports then Field(p, Ihl(p) + 2) else 0))
  }

  // ----- IPv6 -----

  /** Hop-by-hop, routing, destination options and mobility: the headers the walk steps over. */
  predicate IsExtension(next: Byte) {
    next == 0 || next == 43 || next == 60 || next == 135
  }

  /** The length byte counts 8-octet units beyond the first. */
  function ExtensionLength(b: Byte): nat {
    var units: nat := b;
    (units + 1) * 8
  }

  datatype Walk = Truncated | At(next: Byte, offset: nat)

  /** At most `fuel` steps along the chain of extension headers. */
  function WalkHeaders(p: seq<Byte>, next: Byte, offset: nat, fuel: nat): Walk
    decreases fuel
  {
    if fuel == 0 || !IsExtension(next) then At(next, offset)
    else if |p| < offset + 2 then Truncated
    else WalkHeaders(p, p[offset], offset + ExtensionLength(p[offset + 1]), fuel - 1)
  }

  const MAX_EXTENSIONS := 8

  /** The flow of an IPv6 packet, given where the walk ended. */
  function FlowAt(p: seq<Byte>, walk: Walk): Option<Flow>
    requires |p| >= 40
  {
    match walk
    case Truncated => None
    case At(next, offset) =>
      var ports := (next == TCP || next == UDP) && |p| >= offset + 4;
      Some(Flow(Ip6Text(Hextets(p[8..24])), Ip6Text(Hextets(p[24..40])), next,
                if ports then Field(p, offset) else 0,
                if ports then Field(p, offset + 2) else 0))
  }

  function Hextets(b: seq<Byte>): (ws: seq<U16>)
    requires |b| == 16
    ensures |ws| == 8
  {
    seq(8, i requires 0 <= i < 8 => Field(b, 2 * i))
  }

  function ParsedV6Within(p: seq<Byte>, fuel: nat): Option<Flow> {
    if |p| < 40 then None else FlowAt(p, WalkHeaders(p, p[6], 40, fuel))
  }

  function ParsedV6(p: seq<Byte>): Option<Flow> { ParsedV6Within(p, MAX_EXTENSIONS) }

  method ParseV6(p: seq<Byte>) returns (r: Option<Flow>)
    ensures r == ParsedV6(p)
  {
    if |p| < 40 {
      return None;
    }
    var src := Ip6(Hextets(p[8..24]));
    var dst := Ip6(Hextets(p[24..40]));
    var next: Byte := p[6];
    var offset: nat := 40;
    for k := 0 to MAX_EXTENSIONS
      invariant WalkHeaders(p, next, offset, MAX_EXTENSIONS - k) == WalkHeaders(p, p[6], 40, MAX_EXTENSIONS)
    {
      if next == TCP || next == UDP {
        break;
      } else if IsExtension(next) {
        if |p| < offset + 2 {
          return None;
        }
        var len: nat := p[offset + 1];
        next := p[offset];
        offset := offset + (len + 1) * 8;
      } else {
        break;
      }
    }
    var sport: U16, dport: U16 := 0, 0;
    if (next == TCP || next == UDP) && |p| >= offset + 4 {
      sport := Field(p, offset);
      dport := Field(p, offset + 2);
    }
    r := Some(Flow(src, dst, next, sport, dport));
  }

  // ----- Dispatch on the version -----

  function Parsed(p: seq<Byte>): Option<Flow> {
    if |p| == 0 then None
    else if p[0] / 16 == 4 then ParseV4(p)
    else if p[0] / 16 == 6 then ParsedV6(p)
    else None
  }

  method Parse(p: seq<Byte>) returns (r: Option<Flow>)
    ensures r == Parsed(p)
  {
    if |p| == 0 {
      return None;
    }
    var version := p[0] / 16;
    if version == 4 {
      r := ParseV4(p);
    } else if version == 6 {
      r := ParseV6(p);
    } else {
      r := None;
    }
  }

  /** A parsed packet whose version is 4. */
  predicate IsV4(p: seq<Byte>) { |p| > 0 && p[0] / 16 == 4 && Parsed(p).Some? }

  /** The version-4 packets that parse are exactly those both rewrites accept with a full header. */
  lemma ParsesExactlyWellFormed(p: seq<Byte>)
    ensures IsV4(p) <==> WellFormed(p)
  {}

  /** Parsing after a rewrite gives the same flow with only that address replaced. */
  lemma ParseAfterRewrite(p: seq<Byte>, side: Side, a: Addr)
    requires WellFormed(p)
    ensures IsV4(p) && WellFormed(Rewritten(p, side, a)) && IsV4(Rewritten(p, side, a))
    ensures var f := Parsed(p).value;
            Parsed(Rewritten(p, side, a)) ==
            Some(if side.Source? then f.(src := Render(a)) else f.(dst := Render(a)))
  {
    var q := Rewritten(p, side, a);
    RewriteLaws.RewrittenShape(p, side, a);
    var other := if side.Source? then Destination else Source;
    forall j | 0 <= j < |p| && (j < 10 || other.Offset() <= j < other.Offset() + 4 || Ihl(p) <= j < Ihl(p) + 16)
      ensures q[j] == p[j]
    {
      RewriteLaws.RewriteFrame(p, side, a, j);
    }
    SameAddr(p, q, other);
    assert q[9] == p[9];
  }

  lemma SameAddr(p: seq<Byte>, q: seq<Byte>, side: Side)
    requires 20 <= |p| == |q|
    requires forall j :: side.Offset() <= j < side.Offset() + 4 ==> q[j] == p[j]
    ensures GetAddr(q, side) == GetAddr(p, side)
  {
    assert forall k :: 0 <= k < 4 ==> GetAddr(q, side)[k] == q[side.Offset() + k];
  }

  /** The text addresses of an IPv4 flow read back as the packet's own octets. */
  lemma V4AddressesReadBack(p: seq<Byte>)
    requires IsV4(p)
    ensures WellFormed(p)
    ensures ParseAddr(Parsed(p).value.src) == Some(GetAddr(p, Source))
    ensures ParseAddr(Parsed(p).value.dst) == Some(GetAddr(p, Destination))
  {
    ParseAddrExactly(Parsed(p).value.src, GetAddr(p, Source));
    ParseAddrExactly(Parsed(p).value.dst, GetAddr(p, Destination));
  }

  /** Neither address of an IPv6 flow reads as IPv4, so the NAT never forwards one. */
  lemma V6AddressesAreNotV4(p: seq<Byte>)
    requires Parsed(p).Some? && !IsV4(p)
    ensures ParseAddr(Parsed(p).value.src) == None && ParseAddr(Parsed(p).value.dst) == None
  {
    Ip6TextIsNotIpv4(Hextets(p[8..24]));
    Ip6TextIsNotIpv4(Hextets(p[24..40]));
  }

  // ----- The key -----

  lemma KeySplits(f: Flow, g: Flow)
    requires ':' !in f.src && ':' !in f.dst && ':' !in g.src && ':' !in g.dst
    requires f.Key() == g.Key()
    ensures f == g.(proto := f.proto)
  {
    var s, t := f.dst + ":" + Dec(f.dport), g.dst + ":" + Dec(g.dport);
    var x, y := Dec(f.sport) + "-" + (">" + s), Dec(g.sport) + "-" + (">" + t);
    assert f.Key() == f.src + [':'] + x && g.Key() == g.src + [':'] + y;
    SplitUnique(f.src, x, g.src, y, ':');
    SplitUnique(Dec(f.sport), ">" + s, Dec(g.sport), ">" + t, '-');
    assert s == (">" + s)[1..] && t == (">" + t)[1..];
    SplitUnique(f.dst, Dec(f.dport), g.dst, Dec(g.dport), ':');
    DecInjective(f.sport, g.sport);
    DecInjective(f.dport, g.dport);
  }

  /** Two IPv4 packets have equal keys exactly when they agree on addresses and ports. */
  lemma V4KeyExactly(p: seq<Byte>, q: seq<Byte>)
    requires IsV4(p) && IsV4(q)
    ensures var f, g := Parsed(p).value, Parsed(q).value;
            f.Key() == g.Key() <==>
              GetAddr(p, Source) == GetAddr(q, Source) && GetAddr(p, Destination) == GetAddr(q, Destination) &&
              f.sport == g.sport && f.dport == g.dport
  {
    var f, g := Parsed(p).value, Parsed(q).value;
    if f.Key() == g.Key() {
      KeySplits(f, g);
      RenderInjective(GetAddr(p, Source), GetAddr(q, Source));
      RenderInjective(GetAddr(p, Destination), GetAddr(q, Destination));
    }
  }

  predicate IsAscii(s: string) {
    forall i :: 0 <= i < |s| ==> s[i] < 128 as char
  }

  /** Every parsed flow's key is plain ASCII, one byte to a character. */
  lemma KeyIsAscii(p: seq<Byte>)
    requires Parsed(p).Some?
    ensures IsAscii(Parsed(p).value.Key())
  {
    var f := Parsed(p).value;
    if p[0] / 16 == 6 {
      Ip6TextIsAscii(Hextets(p[8..24]));
      Ip6TextIsAscii(Hextets(p[24..40]));
    }
    assert IsAscii(f.src) && IsAscii(f.dst);
    assert IsAscii(Dec(f.sport)) && IsAscii(Dec(f.dport));
  }

  lemma Ip6TextIsAscii(words: seq<U16>)
    requires |words| == 8
    ensures IsAscii(Ip6Text(words))
  {
    TextIsClosed(words);
  }

  // ----- The IPv6 header chain (RFC 8200 section 4) -----

  /** An extension header: its own type and the bytes after its first two. */
  datatype Extension = Extension(kind: Byte, body: seq<Byte>) {
    /** Its total length is a multiple of 8 octets that the length byte can express. */
    predicate Valid() {
      (kind == 0 || kind == 43 || kind == 60 || kind == 135) && |body| % 8 == 6 && |body| <= 2046
    }

    function LengthByte(): (b: Byte)
      requires Valid()
      ensures ExtensionLength(b) == |body| + 2
    {
      (|body| + 2) / 8 - 1
    }
  }

  function FirstKind(exts: seq<Extension>, upper: Byte): Byte {
    if |exts| == 0 then upper else exts[0].kind
  }

  /** The bytes after the fixed header: each extension names the next one, the last names `upper`. */
  function Encode(exts: seq<Extension>, upper: Byte, payload: seq<Byte>): seq<Byte>
    requires forall e :: e in exts ==> e.Valid()
  {
    if |exts| == 0 then payload
    else
      var body := exts[0].body;
      [FirstKind(exts[1..], upper), exts[0].LengthByte()] + body + Encode(exts[1..], upper, payload)
  }

  function Size(exts: seq<Extension>): nat {
    if |exts| == 0 then 0 else |exts[0].body| + 2 + Size(exts[1..])
  }

  /** Where a walk of at most `fuel` steps over a chain at `offset` ends. */
  function ChainEnd(exts: seq<Extension>, upper: Byte, offset: nat, fuel: nat): Walk {
    if |exts| <= fuel then At(upper, offset + Size(exts)) else At(exts[fuel].kind, offset + Size(exts[..fuel]))
  }

  lemma ChainEndStep(exts: seq<Extension>, upper: Byte, offset: nat, fuel: nat, after: nat)
    requires |exts| > 0 && fuel > 0 && after == offset + |exts[0].body| + 2
    ensures ChainEnd(exts, upper, offset, fuel) == ChainEnd(exts[1..], upper, after, fuel - 1)
  {
    if fuel < |exts| {
      assert exts[..fuel][1..] == exts[1..][..fuel - 1];
    }
  }

  /** The walk over an encoded chain stops at the upper layer, or where its eight steps run out. */
  lemma {:induction false} WalkOfEncoded(
      p: seq<Byte>, next: Byte, offset: nat, exts: seq<Extension>, upper: Byte, payload: seq<Byte>, fuel: nat)
    requires forall e :: e in exts ==> e.Valid()
    requires !IsExtension(upper) && next == FirstKind(exts, upper)
    requires offset <= |p| && p[offset..] == Encode(exts, upper, payload)
    ensures WalkHeaders(p, next, offset, fuel) == ChainEnd(exts, upper, offset, fuel)
    decreases fuel
  {
    if |exts| == 0 || fuel == 0 {
      WalkStaysPut(p, next, offset, exts, upper, fuel);
    } else {
      var after, following := offset + |exts[0].body| + 2, FirstKind(exts[1..], upper);
      WalkStep(p, next, offset, exts, upper, payload, fuel, after, following);
      WalkOfEncoded(p, following, after, exts[1..], upper, payload, fuel - 1);
      ChainEndStep(exts, upper, offset, fuel, after);
    }
  }

  lemma WalkStaysPut(p: seq<Byte>, next: Byte, offset: nat, exts: seq<Extension>, upper: Byte, fuel: nat)
    requires |exts| == 0 || fuel == 0
    requires !IsExtension(upper) && next == FirstKind(exts, upper)
    ensures WalkHeaders(p, next, offset, fuel) == ChainEnd(exts, upper, offset, fuel)
  {
    if fuel == 0 {
      assert Size(exts[..0]) == 0;
    }
  }

  /** What the two bytes at the head of a chain say, and where the next header starts. */
  lemma EncodedHead(exts: seq<Extension>, upper: Byte, payload: seq<Byte>)
    requires forall e :: e in exts ==> e.Valid()
    requires |exts| > 0
    ensures var enc, n := Encode(exts, upper, payload), |exts[0].body| + 2;
            && n <= |enc| && enc[n..] == Encode(exts[1..], upper, payload)
            && enc[0] == FirstKind(exts[1..], upper) && ExtensionLength(enc[1]) == n
  {
    assert exts[0] in exts;
  }

  lemma WalkStep(
      p: seq<Byte>, next: Byte, offset: nat, exts: seq<Extension>, upper: Byte, payload: seq<Byte>, fuel: nat,
      after: nat, following: Byte)
    requires forall e :: e in exts ==> e.Valid()
    requires |exts| > 0 && fuel > 0 && next == FirstKind(exts, upper)
    requires offset <= |p| && p[offset..] == Encode(exts, upper, payload)
    requires after == offset + |exts[0].body| + 2 && following == FirstKind(exts[1..], upper)
    ensures after <= |p| && p[after..] == Encode(exts[1..], upper, payload)
    ensures WalkHeaders(p, next, offset, fuel) == WalkHeaders(p, following, after, fuel - 1)
  {
    var tail, n := p[offset..], |exts[0].body| + 2;
    EncodedHead(exts, upper, payload);
    assert exts[0] in exts;
    assert p[offset] == tail[0] && p[offset + 1] == tail[1];
    assert p[offset + n..] == tail[n..];
  }

  lemma {:induction false} SizeOfEncoded(exts: seq<Extension>, upper: Byte, payload: seq<Byte>)
    requires forall e :: e in exts ==> e.Valid()
    ensures |Encode(exts, upper, payload)| == Size(exts) + |payload|
    ensures Encode(exts, upper, payload)[Size(exts)..] == payload
  {
    if |exts| > 0 {
      SizeOfEncoded(exts[1..], upper, payload);
      var enc, n := Encode(exts, upper, payload), |exts[0].body| + 2;
      assert enc[Size(exts)..] == enc[n..][Size(exts[1..])..];
    }
  }

  lemma FieldsOfTail(p: seq<Byte>, at: nat, payload: seq<Byte>)
    requires at <= |p| && p[at..] == payload && |payload| >= 4
    ensures |p| >= at + 4 && Field(p, at) == Field(payload, 0) && Field(p, at + 2) == Field(payload, 2)
  {
    assert forall i :: 0 <= i < 4 ==> p[at + i] == payload[i];
  }

  lemma V6ChainWithin(
      fixed: seq<Byte>, exts: seq<Extension>, upper: Byte, payload: seq<Byte>, fuel: nat, p: seq<Byte>)
    requires |fixed| == 40 && fixed[6] == FirstKind(exts, upper)
    requires forall e :: e in exts ==> e.Valid()
    requires upper == TCP || upper == UDP
    requires |payload| >= 4
    requires p == fixed + Encode(exts, upper, payload)
    ensures ParsedV6Within(p, fuel).Some?
    ensures var f := ParsedV6Within(p, fuel).value;
            if |exts| <= fuel then
              f.proto == upper && f.sport == Field(payload, 0) && f.dport == Field(payload, 2)
            else
              f.proto == exts[fuel].kind && f.sport == 0 && f.dport == 0
  {
    var enc := Encode(exts, upper, payload);
    assert p[40..] == enc;
    WalkOfEncoded(p, fixed[6], 40, exts, upper, payload, fuel);
    SizeOfEncoded(exts, upper, payload);
    if |exts| <= fuel {
      assert p[40 + Size(exts)..] == enc[Size(exts)..];
      FieldsOfTail(p, 40 + Size(exts), payload);
    } else {
      assert exts[fuel] in exts;
    }
  }

  /**
   * A TCP or UDP packet behind up to eight extension headers parses to its upper protocol and
   * ports; behind nine or more it parses to the ninth header's type with both ports zero.
   */
  lemma V6ChainParses(fixed: seq<Byte>, exts: seq<Extension>, upper: Byte, payload: seq<Byte>)
    requires |fixed| == 40 && fixed[0] / 16 == 6 && fixed[6] == FirstKind(exts, upper)
    requires forall e :: e in exts ==> e.Valid()
    requires upper == 6 || upper == 17
    requires |payload| >= 4
    ensures Parsed(fixed + Encode(exts, upper, payload)).Some?
    ensures var f := Parsed(fixed + Encode(exts, upper, payload)).value;
            if |exts| <= 8 then
              f.proto == upper && f.sport == Field(payload, 0) && f.dport == Field(payload, 2)
            else
              f.proto == exts[8].kind && f.sport == 0 && f.dport == 0
  {
    V6ChainWithin(fixed, exts, upper, payload, MAX_EXTENSIONS, fixed + Encode(exts, upper, payload));
  }
}

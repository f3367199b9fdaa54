/** Decimal and hexadecimal numbers, dotted-decimal addresses and their parser. */
module Text {
  import opened Bytes

  predicate IsDigit(c: char) { '0' <= c <= '9' }

  predicate AllDigits(s: string) { forall i :: 0 <= i < |s| ==> IsDigit(s[i]) }

  function Digit(d: nat): (c: char)
    requires d < 10
    ensures IsDigit(c)
  {
    '0' + d as char
  }

  /** Decimal text without leading zeros. */
  function Dec(n: nat): (s: string)
    ensures |s| > 0 && AllDigits(s)
    ensures |s| > 1 ==> s[0] != '0'
    ensures n != 0 ==> s[0] != '0'
  {
    if n < 10 then [Digit(n)] else Dec(n / 10) + [Digit(n % 10)]
  }

  function Value(s: string): nat
    requires AllDigits(s)
  {
    if |s| == 0 then 0 else Value(s[..|s| - 1]) * 10 + (s[|s| - 1] - '0') as nat
  }

  lemma {:induction false} ValueOfDec(n: nat)
    ensures Value(Dec(n)) == n
  {
    if n >= 10 {
      ValueOfDec(n / 10);
      assert Dec(n)[..|Dec(n)| - 1] == Dec(n / 10);
    } else {
      assert Dec(n)[..0] == "";
    }
  }

  lemma {:induction false} DecOfValue(s: string)
    requires |s| > 0 && AllDigits(s)
    requires |s| > 1 ==> s[0] != '0'
    ensures Dec(Value(s)) == s
  {
    var init := s[..|s| - 1];
    if |s| == 1 {
      assert Value(init) == 0;
    } else {
      DecOfValue(init);
      assert init[0] == s[0];
      assert Dec(0)[0] == '0';
      assert s == init + [s[|s| - 1]];
    }
  }

  lemma DecInjective(m: nat, n: nat)
    requires Dec(m) == Dec(n)
    ensures m == n
  {
    ValueOfDec(m);
    ValueOfDec(n);
  }

  lemma DecShort(b: Byte)
    ensures |Dec(b)| <= 3
  {
    if b >= 100 {
      assert |Dec(b / 10 / 10)| == 1;
    }
  }

  // ----- IPv4 addresses -----

  /** The octets in decimal, joined by dots. */
  function RenderOctets(bs: seq<Byte>): (s: string)
    ensures forall i :: 0 <= i < |s| ==> IsDigit(s[i]) || s[i] == '.'
  {
    if |bs| == 0 then ""
    else if |bs| == 1 then Dec(bs[0])
    else Dec(bs[0]) + "." + RenderOctets(bs[1..])
  }

  function Render(a: Addr): string { RenderOctets(a) }

  /** The number of leading digits of `s`. */
  function DigitCount(s: string): (n: nat)
    ensures n <= |s| && AllDigits(s[..n])
    ensures n < |s| ==> !IsDigit(s[n])
  {
    if |s| > 0 && IsDigit(s[0]) then
      assert s[1..][..DigitCount(s[1..])] == s[..1 + DigitCount(s[1..])][1..];
      1 + DigitCount(s[1..])
    else 0
  }

  /** One to three digits, no leading zero, at most 255; yields the octet and its length. */
  function ReadOctet(s: string): (r: Option<(Byte, nat)>)
    ensures r.Some? ==> 0 < r.value.1 <= |s|
  {
    var n := DigitCount(s);
    if n == 0 || n > 3 || (n > 1 && s[0] == '0') || Value(s[..n]) > 255 then None
    else Some((Value(s[..n]), n))
  }

  /** Octets separated by dots, up to the end of `s`. */
  function ParseOctets(s: string): (r: Option<seq<Byte>>)
    ensures r.Some? ==> |r.value| > 0
    decreases |s|
  {
    match ReadOctet(s)
    case None => None
    case Some((b, n)) =>
      if n == |s| then Some([b])
      else if s[n] == '.' then
        match ParseOctets(s[n + 1..])
        case None => None
        case Some(bs) => Some([b] + bs)
      else None
  }

  /** The standard library's strict IPv4 parser: four octets in at most 15 characters. */
  function ParseAddr(s: string): (r: Option<Addr>) {
    if |s| > 15 then None
    else
      match ParseOctets(s)
      case None => None
      case Some(bs) => if |bs| == 4 then Some(bs) else None
  }

  lemma DigitCountUnique(s: string, n: nat)
    requires n <= |s|
    requires AllDigits(s[..n])
    requires n < |s| ==> !IsDigit(s[n])
    ensures DigitCount(s) == n
  {
    var m := DigitCount(s);
    assert forall k :: 0 <= k < n ==> IsDigit(s[..n][k]) && s[k] == s[..n][k];
    assert forall k :: 0 <= k < m ==> IsDigit(s[..m][k]) && s[k] == s[..m][k];
  }

  lemma ReadOctetOfDec(b: Byte, tail: string)
    requires |tail| > 0 ==> !IsDigit(tail[0])
    ensures ReadOctet(Dec(b) + tail) == Some((b, |Dec(b)|))
  {
    var s := Dec(b) + tail;
    assert s[..|Dec(b)|] == Dec(b);
    DigitCountUnique(s, |Dec(b)|);
    DecShort(b);
    ValueOfDec(b);
  }

  lemma {:induction false} RenderedParses(bs: seq<Byte>)
    requires |bs| > 0
    ensures ParseOctets(RenderOctets(bs)) == Some(bs)
  {
    if |bs| == 1 {
      assert bs == [bs[0]];
      ReadOctetOfDec(bs[0], "");
      assert Dec(bs[0]) + "" == Dec(bs[0]);
    } else {
      RenderedParses(bs[1..]);
      OneMoreOctet(bs[0], RenderOctets(bs[1..]), bs[1..]);
      assert bs == [bs[0]] + bs[1..];
    }
  }

  lemma OneMoreOctet(b: Byte, rest: string, bs: seq<Byte>)
    requires ParseOctets(rest) == Some(bs)
    ensures ParseOctets(Dec(b) + "." + rest) == Some([b] + bs)
  {
    var s := Dec(b) + "." + rest;
    assert s == Dec(b) + ("." + rest);
    ReadOctetOfDec(b, "." + rest);
    assert s[|Dec(b)|] == '.' && s[|Dec(b)| + 1..] == rest;
  }

  lemma ReadOctetIsDec(s: string)
    requires ReadOctet(s).Some?
    ensures var (b, n) := ReadOctet(s).value; s[..n] == Dec(b)
  {
    DecOfValue(s[..DigitCount(s)]);
  }

  lemma {:induction false} ParsedIsRendered(s: string)
    requires ParseOctets(s).Some?
    ensures s == RenderOctets(ParseOctets(s).value)
    decreases |s|
  {
    var (b, n) := ReadOctet(s).value;
    ReadOctetIsDec(s);
    if n == |s| {
      assert s == s[..n];
    } else {
      ParsedIsRendered(s[n + 1..]);
      var bs := ParseOctets(s[n + 1..]).value;
      assert ([b] + bs)[1..] == bs;
      SplitAt(s, n);
    }
  }

  lemma SplitAt(s: string, n: nat)
    requires n < |s|
    ensures s == s[..n] + [s[n]] + s[n + 1..]
  {}

  lemma {:induction false} RenderedShort(bs: seq<Byte>)
    ensures |RenderOctets(bs)| <= 4 * |bs|
    ensures |bs| > 0 ==> |RenderOctets(bs)| < 4 * |bs|
  {
    if |bs| > 0 {
      DecShort(bs[0]);
      RenderedShort(bs[1..]);
    }
  }

  /** Parsing inverts rendering, and only rendered text parses. */
  lemma ParseAddrExactly(s: string, a: Addr)
    ensures ParseAddr(s) == Some(a) <==> s == Render(a)
  {
    if s == Render(a) {
      RenderedShort(a);
      RenderedParses(a);
    }
    if ParseAddr(s) == Some(a) {
      ParsedIsRendered(s);
    }
  }

  lemma RenderInjective(a: Addr, b: Addr)
    requires Render(a) == Render(b)
    ensures a == b
  {
    ParseAddrExactly(Render(a), a);
    ParseAddrExactly(Render(a), b);
  }

  // ----- Splitting at a separator -----

  lemma SplitUnique(a: string, x: string, b: string, y: string, c: char)
    requires a + [c] + x == b + [c] + y
    requires c !in a && c !in b
    ensures a == b && x == y
  {
    var s := a + [c] + x;
    assert s[|a|] == c && s[|b|] == c;
    assert a == s[..|a|] && b == s[..|b|];
    assert forall k :: 0 <= k < |a| ==> s[k] == a[k];
    assert forall k :: 0 <= k < |b| ==> s[k] == b[k];
    assert x == s[|a| + 1..] && y == s[|b| + 1..];
  }

  // ----- Hexadecimal -----

  predicate IsHex(c: char) { '0' <= c <= '9' || 'a' <= c <= 'f' }

  function HexDigit(d: nat): (c: char)
    requires d < 16
    ensures IsHex(c)
  {
    if d < 10 then '0' + d as char else 'a' + (d - 10) as char
  }

  /** Lower-case hexadecimal text without leading zeros. */
  function Hex(n: nat): (s: string)
    ensures |s| > 0 && forall i :: 0 <= i < |s| ==> IsHex(s[i])
  {
    if n < 16 then [HexDigit(n)] else Hex(n / 16) + [HexDigit(n % 16)]
  }

  lemma {:induction false} HexInjective(m: nat, n: nat)
    requires Hex(m) == Hex(n)
    ensures m == n
    decreases m
  {
    assert m < 16 <==> |Hex(m)| == 1;
    assert n < 16 <==> |Hex(n)| == 1;
    if m >= 16 && n >= 16 {
      assert Hex(m)[..|Hex(m)| - 1] == Hex(m / 16);
      assert Hex(n)[..|Hex(n)| - 1] == Hex(n / 16);
      assert HexDigit(m % 16) == Hex(m)[|Hex(m)| - 1] == HexDigit(n % 16);
      HexInjective(m / 16, n / 16);
    }
  }

  function HexDigitValue(c: char): nat
    requires IsHex(c)
  {
    if c <= '9' then (c - '0') as nat else (c - 'a') as nat + 10
  }

  /** The number a hexadecimal text denotes. */
  function HexValue(s: string): nat
    requires forall i :: 0 <= i < |s| ==> IsHex(s[i])
  {
    if |s| == 0 then 0 else HexValue(s[..|s| - 1]) * 16 + HexDigitValue(s[|s| - 1])
  }

  lemma {:induction false} HexValueOfHex(n: nat)
    ensures HexValue(Hex(n)) == n
    ensures Hex(n)[0] == '0' <==> n == 0
  {
    if n >= 16 {
      HexValueOfHex(n / 16);
      assert Hex(n)[..|Hex(n)| - 1] == Hex(n / 16);
    } else {
      assert Hex(n)[..0] == "";
    }
  }

  /** As SplitUnique, for the last separator. */
  lemma SplitUniqueLast(a: string, x: string, b: string, y: string, c: char)
    requires a + [c] + x == b + [c] + y
    requires c !in x && c !in y
    ensures a == b && x == y
  {
    var s := a + [c] + x;
    assert s[|a|] == c && s[|b|] == c;
    assert forall k :: |a| < k < |s| ==> s[k] == x[k - |a| - 1];
    assert forall k :: |b| < k < |s| ==> s[k] == y[k - |b| - 1];
    assert a == s[..|a|] && b == s[..|b|];
    assert x == s[|a| + 1..] && y == s[|b| + 1..];
  }
}

/** The text the parser gives to an IPv6 address, and which addresses it confuses. */
module Ipv6Text {
  import opened Bytes
  import opened Text

  /** `usize::MAX`, the marker for "no run". */
  const NONE: nat := 0xffff_ffff_ffff_ffff

  datatype Scan = Scan(bestStart: nat, bestLen: nat, curStart: nat, curLen: nat)

  /** The four scan variables after one more hextet. */
  function ScanStep(sc: Scan, i: nat, w: U16): Scan {
    if w == 0 then
      var start := if sc.curStart == NONE then i else sc.curStart;
      var len := if sc.curStart == NONE then 1 else sc.curLen + 1;
      if len > sc.bestLen then Scan(start, len, start, len) else Scan(sc.bestStart, sc.bestLen, start, len)
    else Scan(sc.bestStart, sc.bestLen, NONE, 0)
  }

  function ScanTo(words: seq<U16>, n: nat): Scan
    requires n <= |words|
  {
    if n == 0 then Scan(NONE, 0, NONE, 0) else ScanStep(ScanTo(words, n - 1), n - 1, words[n - 1])
  }

  /** A run of zero hextets that ends by position `n`. */
  ghost predicate ZeroRun(words: seq<U16>, n: nat, start: nat, len: nat)
    requires n <= |words|
  {
    start + len <= n && forall k :: start <= k < start + len ==> words[k] == 0
  }

  ghost predicate LeftmostLongest(words: seq<U16>, n: nat, start: nat, len: nat)
    requires n <= |words|
  {
    && (len > 0 ==> ZeroRun(words, n, start, len))
    && (forall s: nat, l: nat | l > 0 && ZeroRun(words, n, s, l) :: l < len || (l == len && start <= s))
  }

  /** The scan keeps the leftmost longest run so far and the run that ends here. */
  lemma {:induction false} ScanFinds(words: seq<U16>, n: nat)
    requires n <= |words| <= 8
    ensures var sc := ScanTo(words, n);
            && LeftmostLongest(words, n, sc.bestStart, sc.bestLen)
            && sc.curLen <= n && ZeroRun(words, n, n - sc.curLen, sc.curLen)
            && (sc.curLen < n ==> words[n - sc.curLen - 1] != 0)
            && sc.curStart == (if sc.curLen == 0 then NONE else n - sc.curLen)
  {
    if n > 0 {
      ScanFinds(words, n - 1);
      var before, sc := ScanTo(words, n - 1), ScanTo(words, n);
      forall s: nat, l: nat | l > 0 && ZeroRun(words, n, s, l)
        ensures l < sc.bestLen || (l == sc.bestLen && sc.bestStart <= s)
      {
        if s + l < n {
          assert ZeroRun(words, n - 1, s, l);
        } else {
          assert words[n - 1] == 0;
          assert s >= n - sc.curLen;
        }
      }
    }
  }

  // ----- Rendering -----

  /** The text after `n` hextets, with the run at `start` compressed when it has two or more. */
  function EmitTo(words: seq<U16>, start: nat, len: nat, n: nat): string
    requires n <= |words|
  {
    if n == 0 then ""
    else
      var out := EmitTo(words, start, len, n - 1);
      if len >= 2 && start <= n - 1 < start + len then if n - 1 == start then out + ":" else out
      else (if |out| > 0 && out[|out| - 1] != ':' then out + ":" else out) + Hex(words[n - 1])
  }

  /** The text once the run to compress is known. */
  function TextWith(words: seq<U16>, start: nat, len: nat): string {
    var body := EmitTo(words, start, len, |words|);
    var out := if len >= 2 && start + len == 8 then body + ":" else body;
    if out == "" then "::" else out
  }

  /** Start and length of the leftmost longest run. */
  function BestRun(words: seq<U16>): (r: (nat, nat))
    requires |words| == 8
    ensures LeftmostLongest(words, 8, r.0, r.1)
  {
    ScanFinds(words, |words|);
    var sc := ScanTo(words, |words|);
    (sc.bestStart, sc.bestLen)
  }

  function Ip6Text(words: seq<U16>): string
    requires |words| == 8
  {
    TextWith(words, BestRun(words).0, BestRun(words).1)
  }

  method Ip6(words: seq<U16>) returns (out: string)
    requires |words| == 8
    ensures out == Ip6Text(words)
  {
    var bestStart: nat, bestLen: nat, curStart: nat, curLen: nat := NONE, 0, NONE, 0;
    for i := 0 to |words|
      invariant Scan(bestStart, bestLen, curStart, curLen) == ScanTo(words, i)
    {
      if words[i] == 0 {
        if curStart == NONE {
          curStart, curLen := i, 1;
        } else {
          curLen := curLen + 1;
        }
        if curLen > bestLen {
          bestLen := curLen;
          bestStart := curStart;
        }
      } else {
        curStart, curLen := NONE, 0;
      }
    }
    var compress := bestLen >= 2;

    out := "";
    for i := 0 to |words|
      invariant out == EmitTo(words, bestStart, bestLen, i)
    {
      if compress && i >= bestStart && i < bestStart + bestLen {
        if i == bestStart {
          out := out + ":";
        }
      } else {
        if |out| > 0 && out[|out| - 1] != ':' {
          out := out + ":";
        }
        out := out + Hex(words[i]);
      }
    }
    if compress && bestStart + bestLen == 8 {
      out := out + ":";
    }
    if out == "" {
      out := "::";
    }
  }

  // ----- The text in closed form -----

  function Join(ws: seq<U16>): (s: string)
    ensures |ws| > 0 ==> |s| > 0 && IsHex(s[0]) && IsHex(s[|s| - 1])
    ensures |ws| == 0 ==> s == ""
    ensures forall i :: 0 <= i < |s| ==> IsHex(s[i]) || s[i] == ':'
  {
    if |ws| == 0 then ""
    else if |ws| == 1 then Hex(ws[0])
    else Join(ws[..|ws| - 1]) + ":" + Hex(ws[|ws| - 1])
  }

  lemma {:induction false} EmitBeforeRun(words: seq<U16>, start: nat, len: nat, n: nat)
    requires n <= |words| && (len < 2 || n <= start)
    ensures EmitTo(words, start, len, n) == Join(words[..n])
  {
    if n > 0 {
      EmitBeforeRun(words, start, len, n - 1);
      assert words[..n][..n - 1] == words[..n - 1];
    }
  }

  lemma {:induction false} EmitInRun(words: seq<U16>, start: nat, len: nat, n: nat)
    requires len >= 2 && start < n <= start + len && n <= |words|
    ensures EmitTo(words, start, len, n) == Join(words[..start]) + ":"
  {
    if n == start + 1 {
      EmitBeforeRun(words, start, len, start);
    } else {
      EmitInRun(words, start, len, n - 1);
    }
  }

  lemma JoinSnoc(ws: seq<U16>, w: U16)
    ensures Join(ws + [w]) == if |ws| == 0 then Hex(w) else Join(ws) + ":" + Hex(w)
  {
    assert (ws + [w])[..|ws|] == ws;
  }

  lemma EmitPastRun(words: seq<U16>, start: nat, len: nat, end: nat, body: string)
    requires len >= 2 && end == start + len < |words|
    requires body == Join(words[..start]) + ":"
    ensures EmitTo(words, start, len, end + 1) == body + Hex(words[end])
  {
    EmitInRun(words, start, len, end);
    assert body[|body| - 1] == ':';
  }

  lemma EmitFirstAfterRun(words: seq<U16>, start: nat, len: nat, end: nat, pre: string, kept: seq<U16>)
    requires len >= 2 && end == start + len < |words|
    requires pre == if start == 0 then ":" else ""
    requires kept == words[..start] + [words[end]]
    ensures EmitTo(words, start, len, end + 1) == pre + Join(kept)
  {
    var body := Join(words[..start]) + ":";
    EmitPastRun(words, start, len, end, body);
    JoinSnoc(words[..start], words[end]);
    assert pre + Join(kept) == body + Hex(words[end]);
  }

  /** Past the run, hextets are appended one by one. */
  lemma {:induction false} EmitMore(
      words: seq<U16>, start: nat, len: nat, m: nat, n: nat, pre: string, init: seq<U16>, kept: seq<U16>)
    requires start + len < m <= n <= |words| && |init| > 0
    requires EmitTo(words, start, len, m) == pre + Join(init)
    requires kept == init + words[m..n]
    ensures EmitTo(words, start, len, n) == pre + Join(kept)
  {
    var before := KeptStep(words, m, n, init, kept);
    if n > m {
      EmitMore(words, start, len, m, n - 1, pre, init, before);
      EmitNextHextet(words, start, len, n, pre, before, kept);
    }
  }

  lemma EmitAfterRun(
      words: seq<U16>, start: nat, len: nat, end: nat, n: nat, pre: string, first: seq<U16>, kept: seq<U16>)
    requires len >= 2 && end == start + len < n <= |words|
    requires pre == if start == 0 then ":" else ""
    requires first == words[..start] + [words[end]] && kept == first + words[end + 1..n]
    ensures EmitTo(words, start, len, n) == pre + Join(kept)
  {
    EmitFirstAfterRun(words, start, len, end, pre, first);
    EmitMore(words, start, len, end + 1, n, pre, first, kept);
  }

  lemma KeptStep(words: seq<U16>, m: nat, n: nat, init: seq<U16>, kept: seq<U16>) returns (before: seq<U16>)
    requires m <= n <= |words| && kept == init + words[m..n]
    ensures n == m ==> kept == init
    ensures n > m ==> before == init + words[m..n - 1] && kept == before + [words[n - 1]] && |before| >= |init|
  {
    before := if n > m then init + words[m..n - 1] else init;
  }

  lemma KeptSplit(words: seq<U16>, start: nat, end: nat, n: nat)
    requires start <= end < n <= |words|
    ensures words[..start] + [words[end]] + words[end + 1..n] == words[..start] + words[end..n]
  {}

  lemma EmitNextHextet(
      words: seq<U16>, start: nat, len: nat, n: nat, pre: string, init: seq<U16>, kept: seq<U16>)
    requires start + len < n <= |words| && |init| > 0 && kept == init + [words[n - 1]]
    requires EmitTo(words, start, len, n - 1) == pre + Join(init)
    ensures EmitTo(words, start, len, n) == pre + Join(kept)
  {
    JoinSnoc(init, words[n - 1]);
    var out := pre + Join(init);
    assert out[|out| - 1] == Join(init)[|Join(init)| - 1];
    assert out + ":" + Hex(words[n - 1]) == pre + (Join(init) + ":" + Hex(words[n - 1]));
  }

  /** The hextets that are written out when the run at `start` is compressed. */
  function KeptWith(words: seq<U16>, start: nat, len: nat): seq<U16> {
    if len >= 2 && start + len <= |words| then words[..start] + words[start + len..] else words
  }

  function Kept(words: seq<U16>): seq<U16>
    requires |words| == 8
  {
    KeptWith(words, BestRun(words).0, BestRun(words).1)
  }

  /** A compressed run touches the start of the address. */
  predicate RunFirst(words: seq<U16>)
    requires |words| == 8
  {
    BestRun(words).1 >= 2 && BestRun(words).0 == 0
  }

  /** A compressed run touches the end of the address. */
  predicate RunLast(words: seq<U16>)
    requires |words| == 8
  {
    BestRun(words).1 >= 2 && BestRun(words).0 + BestRun(words).1 == 8
  }

  function Closed(first: bool, kept: seq<U16>, last: bool): (s: string)
    ensures forall i :: 0 <= i < |s| ==> IsHex(s[i]) || s[i] == ':'
  {
    if |kept| == 0 then "::"
    else (if first then ":" else "") + Join(kept) + (if last then "::" else "")
  }

  lemma TextWithoutRun(words: seq<U16>, start: nat, len: nat)
    requires |words| == 8 && len < 2
    ensures TextWith(words, start, len) == Closed(false, words, false)
  {
    EmitBeforeRun(words, start, len, |words|);
    assert words[..|words|] == words;
    assert "" + Join(words) + "" == Join(words);
  }

  lemma TextRunLast(words: seq<U16>, start: nat, len: nat)
    requires |words| == 8 && len >= 2 && start + len == 8
    ensures TextWith(words, start, len) == Closed(start == 0, words[..start], true)
  {
    EmitInRun(words, start, len, |words|);
    if start > 0 {
      assert Join(words[..start]) + ":" + ":" == "" + Join(words[..start]) + "::";
    }
  }

  lemma TextRunInside(words: seq<U16>, start: nat, len: nat)
    requires |words| == 8 && len >= 2 && start + len < 8
    ensures TextWith(words, start, len) == Closed(start == 0, words[..start] + words[start + len..], false)
  {
    var pre, end := if start == 0 then ":" else "", start + len;
    var first := words[..start] + [words[end]];
    KeptSplit(words, start, end, |words|);
    EmitAfterRun(words, start, len, end, |words|, pre, first, first + words[end + 1..|words|]);
    assert words[end..|words|] == words[end..];
  }

  lemma TextWithIsClosed(words: seq<U16>, start: nat, len: nat)
    requires |words| == 8 && (len >= 2 ==> start + len <= 8)
    ensures TextWith(words, start, len) ==
            Closed(len >= 2 && start == 0, KeptWith(words, start, len), len >= 2 && start + len == 8)
  {
    if len < 2 {
      TextWithoutRun(words, start, len);
    } else if start + len == 8 {
      TextRunLast(words, start, len);
      assert words[..start] + words[start + len..] == words[..start];
    } else {
      TextRunInside(words, start, len);
    }
  }

  /** The text in terms of what is kept and where the compressed run lies. */
  lemma TextIsClosed(words: seq<U16>)
    requires |words| == 8
    ensures Ip6Text(words) == Closed(RunFirst(words), Kept(words), RunLast(words))
  {
    TextWithIsClosed(words, BestRun(words).0, BestRun(words).1);
  }

  lemma {:induction false} JoinInjective(u: seq<U16>, v: seq<U16>)
    requires |u| > 0 && |v| > 0 && Join(u) == Join(v)
    ensures u == v
  {
    var x, y := Hex(u[|u| - 1]), Hex(v[|v| - 1]);
    ColonInJoin(u);
    ColonInJoin(v);
    if |u| > 1 && |v| > 1 {
      SplitUniqueLast(Join(u[..|u| - 1]), x, Join(v[..|v| - 1]), y, ':');
      JoinInjective(u[..|u| - 1], v[..|v| - 1]);
      HexInjective(u[|u| - 1], v[|v| - 1]);
    } else if |u| == 1 && |v| == 1 {
      HexInjective(u[0], v[0]);
    }
  }

  lemma ColonInJoin(u: seq<U16>)
    ensures ':' in Join(u) <==> |u| > 1
  {
    if |u| > 1 {
      assert Join(u)[|Join(u[..|u| - 1])|] == ':';
    }
  }

  /**
   * Two IPv6 addresses get the same text exactly when they keep the same hextets and their
   * compressed runs agree on touching the start and the end. The position of an interior run is lost.
   */
  lemma Ip6TextEqualExactly(u: seq<U16>, v: seq<U16>)
    requires |u| == 8 && |v| == 8
    ensures Ip6Text(u) == Ip6Text(v) <==>
              Kept(u) == Kept(v) && RunFirst(u) == RunFirst(v) && RunLast(u) == RunLast(v)
  {
    TextIsClosed(u);
    TextIsClosed(v);
    KeptEmptyExactly(u);
    KeptEmptyExactly(v);
    if Ip6Text(u) == Ip6Text(v) {
      ClosedInjective(RunFirst(u), Kept(u), RunLast(u), RunFirst(v), Kept(v), RunLast(v));
    }
  }

  lemma KeptEmptyExactly(words: seq<U16>)
    requires |words| == 8
    ensures |Kept(words)| == 0 ==> RunFirst(words) && RunLast(words)
    ensures |Kept(words)| == 1 ==> RunFirst(words) || RunLast(words)
  {}

  /** The ends of the text show which ends the run touches, and the middle is the kept hextets. */
  lemma ClosedShape(f: bool, u: seq<U16>, l: bool)
    requires |u| > 0
    ensures var s := Closed(f, u, l);
            && |s| > (if f then 1 else 0) + (if l then 2 else 0)
            && (s[0] == ':' <==> f) && (s[|s| - 1] == ':' <==> l)
            && s[if f then 1 else 0..if l then |s| - 2 else |s|] == Join(u)
            && IsHex(s[if f then 1 else 0])
  {
    var s := Closed(f, u, l);
    assert s[if f then 1 else 0] == Join(u)[0];
    assert s[if l then |s| - 3 else |s| - 1] == Join(u)[|Join(u)| - 1];
  }

  lemma ClosedInjective(f: bool, u: seq<U16>, l: bool, g: bool, v: seq<U16>, m: bool)
    requires Closed(f, u, l) == Closed(g, v, m)
    requires |u| == 0 ==> f && l
    requires |v| == 0 ==> g && m
    ensures f == g && u == v && l == m
  {
    if |u| > 0 {
      ClosedShape(f, u, l);
    }
    if |v| > 0 {
      ClosedShape(g, v, m);
    }
    if |u| > 0 && |v| > 0 {
      JoinInjective(u, v);
    }
  }

  /** 2001:db8:0:0:0:0:0:1 and 2001:0:0:0:0:0:db8:1 are different addresses with one text. */
  lemma Ip6TextCollides()
    ensures var u, v := [0x2001, 0xdb8, 0, 0, 0, 0, 0, 1], [0x2001, 0, 0, 0, 0, 0, 0xdb8, 1];
            u != v && Ip6Text(u) == Ip6Text(v)
  {
    var u: seq<U16> := [0x2001, 0xdb8, 0, 0, 0, 0, 0, 1];
    var v: seq<U16> := [0x2001, 0, 0, 0, 0, 0, 0xdb8, 1];
    RunIs(u, 2, 5);
    RunIs(v, 1, 5);
    assert Kept(u) == [0x2001, 0xdb8, 1] == Kept(v);
    assert u[1] != v[1];
    Ip6TextEqualExactly(u, v);
  }

  /** An address whose only zeros are one run inside it is written without them. */
  lemma TextOfInnerRun(words: seq<U16>, start: nat, len: nat, kept: seq<U16>)
    requires |words| == 8 && 0 < start && len >= 2 && start + len < 8 && ZeroRun(words, |words|, start, len)
    requires forall k :: 0 <= k < 8 && !(start <= k < start + len) ==> words[k] != 0
    requires kept == words[..start] + words[start + len..]
    ensures Ip6Text(words) == Join(kept)
  {
    RunIs(words, start, len);
    TextIsClosed(words);
    assert Closed(false, kept, false) == Join(kept);
  }

  /** The text of the first of them. */
  lemma Ip6KnownText(words: seq<U16>)
    requires |words| == 8 && words[0] == 0x2001 && words[1] == 0xdb8 && words[7] == 1
    requires forall k :: 2 <= k < 7 ==> words[k] == 0
    ensures Ip6Text(words) == "2001" + ":" + "db8" + ":" + "1"
  {
    var kept := words[..2] + words[7..];
    TextOfInnerRun(words, 2, 5, kept);
    JoinOfThree(kept);
    KnownHex();
  }

  lemma JoinOfThree(kept: seq<U16>)
    requires |kept| == 3
    ensures Join(kept) == Hex(kept[0]) + ":" + Hex(kept[1]) + ":" + Hex(kept[2])
  {
    assert kept[..2][..1] == kept[..1] && Join(kept[..1]) == Hex(kept[0]);
    assert Join(kept[..2]) == Hex(kept[0]) + ":" + Hex(kept[1]);
  }

  lemma KnownHex()
    ensures Hex(0x2001) == "2001" && Hex(0xdb8) == "db8" && Hex(1) == "1"
  {
    assert Hex(0x200) == "200";
  }

  /** The only run of zeros is the best one. */
  lemma RunIs(words: seq<U16>, start: nat, len: nat)
    requires |words| == 8 && 0 < len && ZeroRun(words, |words|, start, len)
    requires forall k :: 0 <= k < 8 && !(start <= k < start + len) ==> words[k] != 0
    ensures BestRun(words) == (start, len)
  {
    var (s, l) := BestRun(words);
    assert words[s] == 0 && words[s + l - 1] == 0;
  }

  /** An IPv6 address never reads as an IPv4 address. */
  lemma Ip6TextIsNotIpv4(words: seq<U16>)
    requires |words| == 8
    ensures ':' in Ip6Text(words)
    ensures ParseAddr(Ip6Text(words)) == None
  {
    var s := Ip6Text(words);
    TextIsClosed(words);
    KeptEmptyExactly(words);
    ClosedHasColon(RunFirst(words), Kept(words), RunLast(words));
    if ParseAddr(s).Some? {
      ParseAddrExactly(s, ParseAddr(s).value);
    }
  }

  lemma ClosedHasColon(first: bool, kept: seq<U16>, last: bool)
    requires |kept| != 1 || first || last
    ensures ':' in Closed(first, kept, last)
  {
    var s := Closed(first, kept, last);
    ColonInJoin(kept);
    if first && |kept| > 0 {
      assert s[0] == ':';
    } else if last && |kept| > 0 {
      assert s[|s| - 1] == ':';
    }
  }
}

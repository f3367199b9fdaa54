/** Byte-wise string order, sorting by it, and the uniqueness of a sorted arrangement. */
module Order {
  import opened Sequences

  predicate Leq(a: string, b: string) {
    |a| == 0 || (|b| > 0 && (a[0] < b[0] || (a[0] == b[0] && Leq(a[1..], b[1..]))))
  }

  predicate Less(a: string, b: string) { Leq(a, b) && a != b }

  lemma {:induction false} LeqTotal(a: string, b: string)
    ensures Leq(a, b) || Leq(b, a)
    ensures a == b ==> Leq(a, b)
  {
    if |a| > 0 && |b| > 0 && a[0] == b[0] {
      LeqTotal(a[1..], b[1..]);
    }
  }

  lemma {:induction false} LeqAntisymmetric(a: string, b: string)
    requires Leq(a, b) && Leq(b, a)
    ensures a == b
  {
    if |a| > 0 {
      LeqAntisymmetric(a[1..], b[1..]);
      assert a == [a[0]] + a[1..] && b == [b[0]] + b[1..];
    }
  }

  lemma {:induction false} LeqTransitive(a: string, b: string, c: string)
    requires Leq(a, b) && Leq(b, c)
    ensures Leq(a, c)
  {
    if |a| > 0 && a[0] == b[0] == c[0] {
      LeqTransitive(a[1..], b[1..], c[1..]);
    }
  }

  /** At `k` the two strings part: `a` ends there, or has the smaller character. */
  ghost predicate PartsAt(a: string, b: string, k: int) {
    0 <= k <= |a| && k < |b| && (forall j :: 0 <= j < k ==> a[j] == b[j]) && (k == |a| || a[k] < b[k])
  }

  lemma PartsLater(a: string, b: string, k: int)
    requires |a| > 0 && |b| > 0 && a[0] == b[0]
    ensures PartsAt(a[1..], b[1..], k - 1) <==> PartsAt(a, b, k)
  {
    if PartsAt(a[1..], b[1..], k - 1) {
      forall j | 0 < j < k ensures a[j] == b[j] {
        assert a[1..][j - 1] == b[1..][j - 1];
      }
    }
  }

  /** Byte-wise order: a proper prefix comes first, otherwise the first difference decides. */
  lemma {:induction false} LessExactly(a: string, b: string)
    ensures Less(a, b) <==> exists k :: PartsAt(a, b, k)
  {
    if |a| > 0 && |b| > 0 && a[0] == b[0] {
      LessExactly(a[1..], b[1..]);
      assert a == [a[0]] + a[1..] && b == [b[0]] + b[1..];
      if k :| PartsAt(a[1..], b[1..], k) {
        PartsLater(a, b, k + 1);
      }
      if k :| PartsAt(a, b, k) {
        PartsLater(a, b, k);
      }
    } else if Less(a, b) {
      assert PartsAt(a, b, 0);
    }
  }

  ghost predicate Sorted(s: seq<string>) {
    forall i, j :: 0 <= i < j < |s| ==> Leq(s[i], s[j])
  }

  function Insert(x: string, s: seq<string>): seq<string> {
    if |s| == 0 then [x]
    else if Leq(x, s[0]) then [x] + s
    else [s[0]] + Insert(x, s[1..])
  }

  function Sort(s: seq<string>): seq<string> {
    if |s| == 0 then [] else Insert(s[0], Sort(s[1..]))
  }

  lemma {:induction false} InsertKeeps(x: string, s: seq<string>)
    ensures multiset(Insert(x, s)) == multiset{x} + multiset(s)
    ensures |Insert(x, s)| == |s| + 1
  {
    if |s| > 0 && !Leq(x, s[0]) {
      InsertKeeps(x, s[1..]);
      Rest(s);
    }
  }

  lemma {:induction false} InsertSorts(x: string, s: seq<string>)
    requires Sorted(s)
    ensures Sorted(Insert(x, s))
  {
    if |s| > 0 {
      if Leq(x, s[0]) {
        forall j | 0 < j < |s| ensures Leq(x, s[j]) {
          LeqTransitive(x, s[0], s[j]);
        }
      } else {
        var t := Insert(x, s[1..]);
        InsertSorts(x, s[1..]);
        LeqTotal(x, s[0]);
        forall j | 0 <= j < |t| ensures Leq(s[0], t[j]) {
          InsertedFrom(x, s[1..], j);
        }
      }
    }
  }

  lemma {:induction false} InsertedFrom(x: string, s: seq<string>, j: nat)
    requires j < |Insert(x, s)|
    ensures Insert(x, s)[j] == x || Insert(x, s)[j] in s
  {
    if |s| > 0 && !Leq(x, s[0]) && j > 0 {
      InsertedFrom(x, s[1..], j - 1);
    }
  }

  lemma {:induction false} SortSorts(s: seq<string>)
    ensures Sorted(Sort(s)) && multiset(Sort(s)) == multiset(s) && |Sort(s)| == |s|
  {
    if |s| > 0 {
      SortSorts(s[1..]);
      InsertKeeps(s[0], Sort(s[1..]));
      InsertSorts(s[0], Sort(s[1..]));
      assert s == [s[0]] + s[1..];
    }
  }

  /** A multiset of names has only one sorted arrangement. */
  lemma {:induction false} SortedUnique(a: seq<string>, b: seq<string>)
    requires Sorted(a) && Sorted(b) && multiset(a) == multiset(b)
    ensures a == b
    decreases |a|
  {
    assert |a| == |multiset(a)| == |multiset(b)| == |b|;
    if |a| > 0 {
      SmallestFirst(a, b);
      SmallestFirst(b, a);
      LeqAntisymmetric(a[0], b[0]);
      Rest(a);
      Rest(b);
      SortedUnique(a[1..], b[1..]);
    }
  }

  lemma SmallestFirst(a: seq<string>, b: seq<string>)
    requires Sorted(a) && multiset(a) == multiset(b) && |a| > 0 && |b| > 0
    ensures Leq(a[0], b[0])
  {
    assert b[0] in multiset(b);
    assert b[0] in multiset(a);
    var j :| 0 <= j < |a| && a[j] == b[0];
    LeqTotal(a[0], a[0]);
  }

  // ----- Where the copies of one name lie -----

  /** How many elements come strictly before `x` in the order. */
  function Below(s: seq<string>, x: string): (n: nat)
    ensures n + multiset(s)[x] <= |s|
  {
    if |s| == 0 then 0
    else
      assert s == [s[0]] + s[1..];
      (if Less(s[0], x) then 1 else 0) + Below(s[1..], x)
  }

  lemma {:induction false} BelowInsert(y: string, s: seq<string>, x: string)
    ensures Below(Insert(y, s), x) == (if Less(y, x) then 1 else 0) + Below(s, x)
  {
    if |s| == 0 {
    } else if Leq(y, s[0]) {
      assert ([y] + s)[1..] == s;
    } else {
      BelowInsert(y, s[1..], x);
      assert ([s[0]] + Insert(y, s[1..]))[1..] == Insert(y, s[1..]);
    }
  }

  lemma {:induction false} BelowSort(s: seq<string>, x: string)
    ensures Below(Sort(s), x) == Below(s, x)
  {
    if |s| > 0 {
      BelowSort(s[1..], x);
      BelowInsert(s[0], Sort(s[1..]), x);
    }
  }

  lemma {:induction false} BelowAppend(s: seq<string>, t: seq<string>, x: string)
    ensures Below(s + t, x) == Below(s, x) + Below(t, x)
  {
    if |s| == 0 {
      assert s + t == t;
    } else {
      BelowAppend(s[1..], t, x);
      assert (s + t)[1..] == s[1..] + t;
    }
  }

  lemma {:induction false} NoneBelow(s: seq<string>, x: string)
    requires forall j :: 0 <= j < |s| ==> Leq(x, s[j])
    ensures Below(s, x) == 0
  {
    if |s| > 0 {
      NoneBelow(s[1..], x);
      if Leq(s[0], x) {
        LeqAntisymmetric(s[0], x);
      }
    }
  }

  /** A sorted sequence that starts above `x` has no copy of it. */
  lemma NoneAbove(s: seq<string>, x: string, j: nat)
    requires Sorted(s) && j < |s| && Leq(x, s[0]) && s[0] != x
    ensures s[j] != x && multiset(s)[x] == 0
  {
    forall k | 0 <= k < |s| ensures s[k] != x {
      if k > 0 && s[k] == x {
        LeqAntisymmetric(s[0], x);
      }
    }
  }

  /** All of a sorted sequence is at or above its head. */
  lemma HeadIsLeast(s: seq<string>, x: string)
    requires Sorted(s) && |s| > 0 && Leq(x, s[0])
    ensures forall k :: 0 <= k < |s| ==> Leq(x, s[k])
  {
    forall k | 0 < k < |s| ensures Leq(x, s[k]) {
      LeqTransitive(x, s[0], s[k]);
    }
  }

  /** In a sorted sequence the copies of `x` fill one block, right after what is below `x`. */
  lemma {:induction false} SortedBlock(s: seq<string>, x: string, j: nat)
    requires Sorted(s) && j < |s|
    ensures s[j] == x <==> Below(s, x) <= j < Below(s, x) + multiset(s)[x]
  {
    var h := s[0];
    Rest(s);
    if Less(h, x) || h == x {
      if j > 0 {
        SortedBlock(s[1..], x, j - 1);
      }
      if h == x {
        LeqTotal(x, x);
        HeadIsLeast(s, x);
        NoneBelow(s, x);
      }
    } else {
      LeqTotal(h, x);
      HeadIsLeast(s, x);
      NoneBelow(s, x);
      NoneAbove(s, x, j);
    }
  }
}

/** The ordered set of (address, count) entries most-ip reports from: the
    IpCount comparator and the TreeSet it is kept in, modelled as a strictly
    sorted sequence. */
module Ranking {

  /** An address key with the number of lines it headed. */
  datatype IpCount = IpCount(ip: string, count: nat)

  /** Java's String.compareTo: the difference of the first pair of differing
      characters, or else the difference of the lengths. The keys compared
      here consist of digits, dots and one whitespace character from the
      Basic Multilingual Plane, where a character's Unicode value and its
      UTF-16 code unit coincide. */
  function CompareStrings(s: string, t: string): int
    decreases |s|
  {
    if |s| == 0 || |t| == 0 then |s| - |t|
    else if s[0] != t[0] then s[0] as int - t[0] as int
    else CompareStrings(s[1..], t[1..])
  }

  /** Lexicographic order, defined independently of CompareStrings: s is a
      proper prefix of t, or s is smaller at the first position where they
      differ. */
  predicate LexLess(s: string, t: string) {
    || (|s| < |t| && s == t[..|s|])
    || exists i :: 0 <= i < |s| && i < |t| && s[..i] == t[..i] && s[i] < t[i]
  }

  lemma LexLessTail(s: string, t: string)
    requires |s| > 0 && |t| > 0 && s[0] == t[0]
    ensures LexLess(s, t) <==> LexLess(s[1..], t[1..])
  {
    if LexLess(s, t) {
      if |s| < |t| && s == t[..|s|] {
        assert s[1..] == t[1..][..|s[1..]|];
      } else {
        var i :| 0 <= i < |s| && i < |t| && s[..i] == t[..i] && s[i] < t[i];
        assert i > 0;
        assert s[1..][..i - 1] == s[1..i] == t[1..i] == t[1..][..i - 1];
        assert s[1..][i - 1] < t[1..][i - 1];
      }
    }
    if LexLess(s[1..], t[1..]) {
      if |s[1..]| < |t[1..]| && s[1..] == t[1..][..|s[1..]|] {
        assert s == [s[0]] + s[1..];
        assert t[..|s|] == [t[0]] + t[1..][..|s[1..]|];
      } else {
        var i :| 0 <= i < |s[1..]| && i < |t[1..]| && s[1..][..i] == t[1..][..i] && s[1..][i] < t[1..][i];
        assert s[..i + 1] == [s[0]] + s[1..][..i];
        assert t[..i + 1] == [t[0]] + t[1..][..i];
        assert s[i + 1] < t[i + 1];
      }
    }
  }

  /** CompareStrings is zero exactly on equal strings, flips sign when its
      arguments are swapped, and is negative exactly when the first string is
      lexicographically smaller. */
  lemma {:induction false} CompareStringsSpec(s: string, t: string)
    ensures CompareStrings(s, t) == 0 <==> s == t
    ensures CompareStrings(t, s) == -CompareStrings(s, t)
    ensures CompareStrings(s, t) < 0 <==> LexLess(s, t)
    decreases |s|
  {
    if |s| == 0 || |t| == 0 {
      if |s| < |t| {
        assert s == t[..|s|];
      }
      if |s| > 0 {
        assert s != t;
      }
    } else if s[0] != t[0] {
      assert s != t;
      if s[0] < t[0] {
        assert s[..0] == t[..0];
      }
    } else {
      CompareStringsSpec(s[1..], t[1..]);
      LexLessTail(s, t);
      if s[1..] == t[1..] {
        assert s == [s[0]] + s[1..] && t == [t[0]] + t[1..];
      }
      if s == t {
        assert s[1..] == t[1..];
      }
    }
  }

  lemma {:induction false} CompareStringsTransitive(s: string, t: string, u: string)
    requires CompareStrings(s, t) < 0 && CompareStrings(t, u) < 0
    ensures CompareStrings(s, u) < 0
    decreases |s|
  {
    if |s| > 0 && |t| > 0 && |u| > 0 && s[0] == t[0] && t[0] == u[0] {
      CompareStringsTransitive(s[1..], t[1..], u[1..]);
    }
  }

  /** IpCount.compareTo: descending count, then ascending address. Counts are
      unbounded naturals in the model (see `CountTable.Record` under "Left
      out" in the README); within that scope `other.count - count` cannot
      overflow. */
  function Compare(a: IpCount, b: IpCount): int {
    var cmp := b.count - a.count;
    if cmp != 0 then cmp else CompareStrings(a.ip, b.ip)
  }

  /** a sorts strictly before b. */
  predicate Before(a: IpCount, b: IpCount) {
    Compare(a, b) < 0
  }

  /** The comparator is zero only on identical entries, antisymmetric, and
      puts a before b exactly when a has the larger count, or the same count
      and the lexicographically smaller address. */
  lemma CompareSpec(a: IpCount, b: IpCount)
    ensures Compare(a, b) == 0 <==> a == b
    ensures Compare(b, a) == -Compare(a, b)
    ensures Before(a, b) <==>
              a.count > b.count || (a.count == b.count && LexLess(a.ip, b.ip))
  {
    CompareStringsSpec(a.ip, b.ip);
  }

  lemma BeforeTransitive(a: IpCount, b: IpCount, c: IpCount)
    requires Before(a, b) && Before(b, c)
    ensures Before(a, c)
  {
    if a.count == b.count && b.count == c.count {
      CompareStringsTransitive(a.ip, b.ip, c.ip);
    }
  }

  lemma BeforeAsymmetric(a: IpCount, b: IpCount)
    ensures !(Before(a, b) && Before(b, a))
    ensures !Before(a, a)
  {
    CompareSpec(a, b);
    CompareSpec(a, a);
  }

  /** The TreeSet's order: every entry strictly before every later one. */
  predicate Sorted(s: seq<IpCount>) {
    forall i, j :: 0 <= i < j < |s| ==> Before(s[i], s[j])
  }

  /** TreeSet.add: x goes to its place in the order; an entry comparing equal
      to x (which the comparator allows only for x itself) keeps the set as
      it is. */
  function Insert(s: seq<IpCount>, x: IpCount): (r: seq<IpCount>)
    requires Sorted(s)
    ensures Sorted(r)
    ensures forall e :: e in r <==> e in s || e == x
    ensures x in s ==> r == s
    ensures x !in s ==> |r| == |s| + 1
    decreases |s|
  {
    if |s| == 0 then [x]
    else
      var c := Compare(x, s[0]);
      if c < 0 then
        assert forall j :: 0 <= j < |s| ==> Before(x, s[j]) by {
          forall j | 0 <= j < |s|
            ensures Before(x, s[j])
          {
            if j > 0 {
              BeforeTransitive(x, s[0], s[j]);
            }
          }
        }
        assert x !in s by {
          if x in s {
            BeforeAsymmetric(x, x);
            assert false;
          }
        }
        [x] + s
      else if c == 0 then
        CompareSpec(x, s[0]);
        s
      else
        CompareSpec(x, s[0]);
        var rest := Insert(s[1..], x);
        assert forall e :: e in s <==> e == s[0] || e in s[1..];
        assert Before(s[0], x);
        forall j | 0 <= j < |rest|
          ensures Before(s[0], rest[j])
        {
          assert rest[j] in rest;
          if rest[j] != x {
            var k :| 0 <= k < |s[1..]| && s[1..][k] == rest[j];
            assert s[k + 1] == rest[j];
          }
        }
        assert s[0] !in s[1..] by {
          if s[0] in s[1..] {
            BeforeAsymmetric(s[0], s[0]);
            assert false;
          }
        }
        [s[0]] + rest
  }

  /** r is the TreeSet built from table t: sorted, holding exactly one entry
      per key with that key's count. */
  predicate IsRankingOf(r: seq<IpCount>, t: map<string, nat>) {
    && Sorted(r)
    && (forall e :: e in r ==> e.ip in t && t[e.ip] == e.count)
    && (forall k :: k in t ==> IpCount(k, t[k]) in r)
  }

  /** The second half of process: every table entry added to the TreeSet.
      The key order of the HashMap is not specified, so keys are taken in an
      arbitrary order. */
  method Rank(t: map<string, nat>) returns (r: seq<IpCount>)
    ensures IsRankingOf(r, t)
    ensures |r| == |t|
  {
    r := [];
    var pending := t.Keys;
    while pending != {}
      invariant pending <= t.Keys
      invariant Sorted(r)
      invariant forall e :: e in r <==> e.ip in t && e.ip !in pending && t[e.ip] == e.count
      invariant |r| == |t.Keys - pending|
      decreases pending
    {
      var ip :| ip in pending;
      var e := IpCount(ip, t[ip]);
      assert e !in r;
      r := Insert(r, e);
      assert t.Keys - (pending - {ip}) == (t.Keys - pending) + {ip};
      pending := pending - {ip};
    }
    assert t.Keys - pending == t.Keys;
  }

  /** A strictly sorted sequence is determined by its elements. */
  lemma {:induction false} SortedUnique(r1: seq<IpCount>, r2: seq<IpCount>)
    requires Sorted(r1) && Sorted(r2)
    requires forall e :: e in r1 <==> e in r2
    ensures r1 == r2
    decreases |r1|
  {
    if |r1| > 0 {
      assert r1[0] in r2;
    }
    if |r2| > 0 {
      assert r2[0] in r1;
    }
    if |r1| > 0 && |r2| > 0 {
      var a, b := r1[0], r2[0];
      if a != b {
        assert a in r2 && b in r1;
        var i :| 0 <= i < |r1| && r1[i] == b;
        var j :| 0 <= j < |r2| && r2[j] == a;
        BeforeAsymmetric(a, b);
        assert false;
      }
      forall e
        ensures e in r1[1..] <==> e in r2[1..]
      {
        assert e in r1 <==> e == a || e in r1[1..];
        assert e in r2 <==> e == a || e in r2[1..];
        if e == a {
          if a in r1[1..] {
            BeforeAsymmetric(a, a);
            assert false;
          }
          if a in r2[1..] {
            BeforeAsymmetric(a, a);
            assert false;
          }
        }
      }
      SortedUnique(r1[1..], r2[1..]);
      assert r1 == [a] + r1[1..] && r2 == [a] + r2[1..];
    }
  }

  /** The ranking of a table is unique, so the report does not depend on the
      order in which the table's keys are visited. */
  lemma RankingDeterministic(t: map<string, nat>, r1: seq<IpCount>, r2: seq<IpCount>)
    requires IsRankingOf(r1, t) && IsRankingOf(r2, t)
    ensures r1 == r2
  {
    SortedUnique(r1, r2);
  }
}

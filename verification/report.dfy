/** The output side of most-ip: the `dumpTop` loop that prints the entries
    whose counts are among the n largest distinct counts, the printed line
    format, and the whole run from log lines to printed lines. */
module Report {
  import opened Wrappers
  import opened LineMatch
  import opened CountTable
  import opened Ranking

  function DigitChar(d: nat): (c: char)
    requires d < 10
    ensures IsDigit(c)
  {
    ('0' as int + d) as char
  }

  function DigitValue(c: char): (d: nat)
    requires IsDigit(c)
    ensures d < 10
  {
    c as int - '0' as int
  }

  /** `%d` of a non-negative count: its decimal digits, without leading zeros. */
  function Decimal(n: nat): (s: string)
    ensures |s| >= 1
    ensures forall i :: 0 <= i < |s| ==> IsDigit(s[i])
    ensures |s| > 1 ==> s[0] != '0'
    decreases n
  {
    if n < 10 then [DigitChar(n)] else Decimal(n / 10) + [DigitChar(n % 10)]
  }

  /** The value of a string of decimal digits. */
  function DecimalValue(s: string): nat
    requires forall i :: 0 <= i < |s| ==> IsDigit(s[i])
    decreases |s|
  {
    if |s| == 0 then 0 else 10 * DecimalValue(s[..|s| - 1]) + DigitValue(s[|s| - 1])
  }

  /** Reading back the printed count gives the count. */
  lemma {:induction false} DecimalRoundTrip(n: nat)
    ensures DecimalValue(Decimal(n)) == n
    decreases n
  {
    var s := Decimal(n);
    if n >= 10 {
      DecimalRoundTrip(n / 10);
      assert s[..|s| - 1] == Decimal(n / 10);
    }
  }

  /** One printed line: `"%d %s\n"` of the count and the key. The key keeps its
      own trailing whitespace character, so the line ends in that character
      followed by the newline. */
  function FormatLine(e: IpCount): string {
    Decimal(e.count) + " " + e.ip + "\n"
  }

  /** Splits a printed line back into count and key: the digits up to the
      first space, and what lies between that space and the final newline. */
  function ParseLine(line: string): Option<IpCount> {
    var p := DigitRun(line, 0);
    if 1 <= p && p + 1 < |line| && line[p] == ' ' && line[|line| - 1] == '\n' then
      Some(IpCount(line[p + 1..|line| - 1], DecimalValue(line[..p])))
    else
      None
  }

  /** A printed line determines the entry it was printed from. */
  lemma FormatLineRoundTrip(e: IpCount)
    ensures ParseLine(FormatLine(e)) == Some(e)
  {
    var d := Decimal(e.count);
    var line := FormatLine(e);
    assert line[..|d|] == d;
    assert DigitsAt(line, 0, |d|);
    DigitRunExact(line, 0, |d|);
    assert line[|d| + 1..|line| - 1] == e.ip;
    DecimalRoundTrip(e.count);
  }

  /** Counts never increase along the sequence. */
  predicate NonIncreasing(s: seq<IpCount>) {
    forall i, j :: 0 <= i <= j < |s| ==> s[i].count >= s[j].count
  }

  /** The TreeSet order lists entries by descending count. */
  lemma SortedNonIncreasing(s: seq<IpCount>)
    requires Sorted(s)
    ensures NonIncreasing(s)
  {
    forall i, j | 0 <= i < j < |s|
      ensures s[i].count >= s[j].count
    {
      CompareSpec(s[i], s[j]);
    }
  }

  /** The distinct counts in s that are larger than c. */
  function CountsAbove(s: seq<IpCount>, c: nat): set<nat> {
    set i | 0 <= i < |s| && s[i].count > c :: s[i].count
  }

  /** The distinct counts in table t that are larger than c. */
  function TableCountsAbove(t: Table, c: nat): set<nat> {
    set k | k in t && t[k] > c :: t[k]
  }

  /** How many times the count has changed before position i: the `pos`
      counter of dumpTop, less one. */
  function TierIndex(s: seq<IpCount>, i: nat): nat
    requires i < |s|
  {
    if i == 0 then 0
    else TierIndex(s, i - 1) + (if s[i - 1].count != s[i].count then 1 else 0)
  }

  lemma {:induction false} TierIndexMonotone(s: seq<IpCount>, i: nat, j: nat)
    requires i <= j < |s|
    ensures TierIndex(s, i) <= TierIndex(s, j)
    decreases j - i
  {
    if i < j {
      TierIndexMonotone(s, i, j - 1);
    }
  }

  /** No count lies above the first count of a non-increasing sequence. */
  lemma CountsAboveFirst(s: seq<IpCount>)
    requires NonIncreasing(s) && |s| > 0
    ensures CountsAbove(s, s[0].count) == {}
  {
    assert forall j :: 0 <= j < |s| ==> s[j].count <= s[0].count;
  }

  /** Where the count drops between positions i-1 and i, the counts above the
      new one are those above the old one plus the old one itself. */
  lemma CountsAboveDrop(s: seq<IpCount>, i: nat)
    requires NonIncreasing(s) && 0 < i < |s| && s[i - 1].count != s[i].count
    ensures CountsAbove(s, s[i].count) == CountsAbove(s, s[i - 1].count) + {s[i - 1].count}
    ensures s[i - 1].count !in CountsAbove(s, s[i - 1].count)
  {
    var prev := s[i - 1].count;
    forall x | x in CountsAbove(s, s[i].count)
      ensures x in CountsAbove(s, prev) + {prev}
    {
      var j :| 0 <= j < |s| && s[j].count > s[i].count && s[j].count == x;
      assert j < i;
    }
  }

  /** On a sequence with non-increasing counts, the tier index of an entry is
      the number of distinct counts above its own. */
  lemma {:induction false} TierIndexIsRank(s: seq<IpCount>, i: nat)
    requires NonIncreasing(s) && i < |s|
    ensures |CountsAbove(s, s[i].count)| == TierIndex(s, i)
    decreases i
  {
    if i == 0 {
      CountsAboveFirst(s);
    } else {
      TierIndexIsRank(s, i - 1);
      if s[i - 1].count != s[i].count {
        CountsAboveDrop(s, i);
      }
    }
  }

  /** A cut of s at k keeps exactly the entries with fewer than n distinct
      counts above their own, when every entry before k has a tier index
      below n and the entry at k (if any) does not. */
  lemma TopTierCut(s: seq<IpCount>, n: int, k: nat)
    requires NonIncreasing(s) && k <= |s|
    requires forall j :: 0 <= j < k ==> TierIndex(s, j) < n
    requires k < |s| ==> TierIndex(s, k) >= n
    ensures forall i :: 0 <= i < |s| ==> (i < k <==> |CountsAbove(s, s[i].count)| < n)
  {
    forall i | 0 <= i < |s|
      ensures i < k <==> |CountsAbove(s, s[i].count)| < n
    {
      TierIndexIsRank(s, i);
      if i >= k {
        TierIndexMonotone(s, k, i);
      }
    }
  }

  /** dumpTop(n): walks the entries in order, counting the distinct counts
      seen, and stops at the first entry whose count would be the (n+1)-th;
      every entry before it is printed. Entries tied on a count are never
      split, and nothing is printed when n <= 0. */
  method DumpTop(s: seq<IpCount>, n: int) returns (out: seq<string>)
    requires NonIncreasing(s)
    ensures |out| <= |s|
    ensures forall j :: 0 <= j < |out| ==> out[j] == FormatLine(s[j])
    ensures forall i :: 0 <= i < |s| ==> (i < |out| <==> |CountsAbove(s, s[i].count)| < n)
    ensures n <= 0 ==> out == []
  {
    var lastCount: int := -1;
    var pos := 0;
    out := [];
    var i := 0;
    while i < |s|
      invariant 0 <= i <= |s|
      invariant |out| == i
      invariant forall j :: 0 <= j < i ==> out[j] == FormatLine(s[j])
      invariant i == 0 ==> lastCount == -1 && pos == 0
      invariant i > 0 ==> lastCount == s[i - 1].count && pos == TierIndex(s, i - 1) + 1
      invariant forall j :: 0 <= j < i ==> TierIndex(s, j) < n
    {
      var e := s[i];
      if lastCount != e.count {
        lastCount := e.count;
        pos := pos + 1;
        if pos > n {
          TopTierCut(s, n, i);
          return;
        }
      }
      out := out + [FormatLine(e)];
      i := i + 1;
    }
    TopTierCut(s, n, i);
  }

  /** The distinct counts above c are the same whether read from the table or
      from its ranking. */
  lemma RankingCountsAbove(r: seq<IpCount>, t: Table, c: nat)
    requires IsRankingOf(r, t)
    ensures CountsAbove(r, c) == TableCountsAbove(t, c)
  {
    forall x | x in TableCountsAbove(t, c)
      ensures x in CountsAbove(r, c)
    {
      var k :| k in t && t[k] > c && t[k] == x;
      var j :| 0 <= j < |r| && r[j] == IpCount(k, t[k]);
    }
  }

  /** The outcome of ranking and printing table t with parameter n: `ranked`
      is the TreeSet built from t, and `out` is the formatted first entries of
      it, exactly those whose count is among the n largest distinct counts of
      t. */
  predicate IsReportOf(t: Table, n: int, ranked: seq<IpCount>, out: seq<string>) {
    && IsRankingOf(ranked, t)
    && |out| <= |ranked|
    && (forall j :: 0 <= j < |out| ==> out[j] == FormatLine(ranked[j]))
    && (forall i :: 0 <= i < |ranked| ==>
          (i < |out| <==> |TableCountsAbove(t, ranked[i].count)| < n))
  }

  /** The outcome of a whole run on `lines`: the report of the table the
      lines tally to. */
  predicate IsReport(lines: seq<string>, n: int, ranked: seq<IpCount>, out: seq<string>) {
    IsReportOf(Tally(lines), n, ranked, out)
  }

  /** A whole run of most-ip on a log given as its lines: scan, count, rank,
      print the top n tiers. */
  method MostIp(lines: seq<string>, n: int) returns (ranked: seq<IpCount>, out: seq<string>)
    ensures IsReport(lines, n, ranked, out)
  {
    var t := Tally(lines);
    ranked := Rank(t);
    SortedNonIncreasing(ranked);
    out := DumpTop(ranked, n);
    forall i | 0 <= i < |ranked|
      ensures CountsAbove(ranked, ranked[i].count) == TableCountsAbove(t, ranked[i].count)
    {
      RankingCountsAbove(ranked, t, ranked[i].count);
    }
  }

  /** The report of a table is unique: whatever order the table's keys are
      visited in, the ranking and the printed lines are the same. */
  lemma ReportOfDeterministic(t: Table, n: int,
                              r1: seq<IpCount>, o1: seq<string>, r2: seq<IpCount>, o2: seq<string>)
    requires IsReportOf(t, n, r1, o1) && IsReportOf(t, n, r2, o2)
    ensures r1 == r2 && o1 == o2
  {
    RankingDeterministic(t, r1, r2);
    // At the position where the shorter output stops, both outputs agree on
    // whether that entry is printed, so neither can stop earlier.
    if |o1| < |r1| {
      var i := |o1|;
      assert i < |o1| <==> |TableCountsAbove(t, r1[i].count)| < n;
      assert i < |o2| <==> |TableCountsAbove(t, r2[i].count)| < n;
    }
    if |o2| < |r2| {
      var i := |o2|;
      assert i < |o1| <==> |TableCountsAbove(t, r1[i].count)| < n;
      assert i < |o2| <==> |TableCountsAbove(t, r2[i].count)| < n;
    }
  }

  /** The report is a function of the lines and n: two runs on the same input
      print the same lines. */
  lemma ReportDeterministic(lines: seq<string>, n: int,
                            r1: seq<IpCount>, o1: seq<string>, r2: seq<IpCount>, o2: seq<string>)
    requires IsReport(lines, n, r1, o1) && IsReport(lines, n, r2, o2)
    ensures r1 == r2 && o1 == o2
  {
    ReportOfDeterministic(Tally(lines), n, r1, o1, r2, o2);
  }
}

/** Two concrete runs of most-ip, pinned down from the contract of a whole run
    alone: a small log with a clear winner, and a tie on the top count. */
module RankerExamples {
  import opened Wrappers
  import opened LineMatch
  import opened CountTable
  import opened Ranking
  import opened Report

  const Log: seq<string> := ["10.0.0.1 GET /", "10.0.0.1 POST /", "10.0.0.2 GET /", "not-an-ip x"]

  const TiedLog: seq<string> := ["10.0.0.2 GET /", "10.0.0.1 GET /"]

  lemma KeyOfPost()
    ensures KeyOf("10.0.0.1 POST /") == Some("10.0.0.1 ")
  {
    assert "10.0.0.1 POST /"[..9] == "10.0.0.1 ";
    assert QuadShape("10.0.0.1 POST /", 2, 1, 1, 1);
    MatchLengthComplete("10.0.0.1 POST /", 2, 1, 1, 1);
  }

  lemma KeyOfSecondAddress()
    ensures KeyOf("10.0.0.2 GET /") == Some("10.0.0.2 ")
  {
    assert "10.0.0.2 GET /"[..9] == "10.0.0.2 ";
    assert QuadShape("10.0.0.2 GET /", 2, 1, 1, 1);
    MatchLengthComplete("10.0.0.2 GET /", 2, 1, 1, 1);
  }

  lemma TallySnoc(lines: seq<string>, line: string)
    ensures Tally(lines + [line]) == Record(Tally(lines), line)
  {
    assert (lines + [line])[..|lines|] == lines;
  }

  lemma RecordSome(t: Table, line: string, k: string)
    requires KeyOf(line) == Some(k)
    ensures Record(t, line) == t[k := if k in t then t[k] + 1 else 1]
  {
  }

  /** One matched line more: the tally t of the earlier lines with k counted
      once more. */
  lemma TallyStep(lines: seq<string>, line: string, k: string, t: Table)
    requires KeyOf(line) == Some(k) && t == Tally(lines)
    ensures Tally(lines + [line]) == t[k := if k in t then t[k] + 1 else 1]
  {
    TallySnoc(lines, line);
    RecordSome(t, line, k);
  }

  lemma MapOverwrite(a: string, x: nat, y: nat)
    ensures map[a := x][a := y] == map[a := y]
  {
  }

  /** A rejected line more leaves the tally as it was. */
  lemma TallySkip(lines: seq<string>, line: string, t: Table)
    requires KeyOf(line) == None && t == Tally(lines)
    ensures Tally(lines + [line]) == t
  {
    TallySnoc(lines, line);
  }

  lemma TallyOfOne(l0: string, a: string)
    requires KeyOf(l0) == Some(a)
    ensures Tally([l0]) == map[a := 1]
  {
    TallyStep([], l0, a, map[]);
    assert [] + [l0] == [l0];
  }

  /** Tally of two lines with the same key. */
  lemma TallyOfPair(l0: string, l1: string, a: string)
    requires KeyOf(l0) == Some(a) && KeyOf(l1) == Some(a)
    ensures Tally([l0, l1]) == map[a := 2]
  {
    TallyOfOne(l0, a);
    TallyStep([l0], l1, a, map[a := 1]);
    assert [l0] + [l1] == [l0, l1];
    MapOverwrite(a, 1, 2);
  }

  lemma TallyOfThree(l0: string, l1: string, l2: string, a: string, b: string)
    requires KeyOf(l0) == Some(a) && KeyOf(l1) == Some(a) && KeyOf(l2) == Some(b)
    requires a != b
    ensures Tally([l0, l1, l2]) == map[a := 2, b := 1]
  {
    TallyOfPair(l0, l1, a);
    TallyStep([l0, l1], l2, b, map[a := 2]);
    assert [l0, l1] + [l2] == [l0, l1, l2];
  }

  /** Tally of four lines, two with key a, one with key b, one rejected. */
  lemma TallyOfFour(l0: string, l1: string, l2: string, l3: string, a: string, b: string)
    requires KeyOf(l0) == Some(a) && KeyOf(l1) == Some(a) && KeyOf(l2) == Some(b)
    requires KeyOf(l3) == None && a != b
    ensures Tally([l0, l1, l2, l3]) == map[a := 2, b := 1]
  {
    TallyOfThree(l0, l1, l2, a, b);
    TallySkip([l0, l1, l2], l3, map[a := 2, b := 1]);
    assert [l0, l1, l2] + [l3] == [l0, l1, l2, l3];
  }

  /** Tally of two lines with distinct keys. */
  lemma TallyOfTwo(l0: string, l1: string, a: string, b: string)
    requires KeyOf(l0) == Some(a) && KeyOf(l1) == Some(b) && a != b
    ensures Tally([l0, l1]) == map[a := 1, b := 1]
  {
    TallyOfOne(l0, a);
    TallyStep([l0], l1, b, map[a := 1]);
    assert [l0] + [l1] == [l0, l1];
  }

  /** Two lines of 10.0.0.1, one of 10.0.0.2, one rejected line. */
  lemma LogTally()
    ensures Tally(Log) == map["10.0.0.1 " := 2, "10.0.0.2 " := 1]
  {
    KeyKeepsWhitespace();
    KeyOfPost();
    KeyOfSecondAddress();
    KeyRejectsMalformed();
    TallyOfFour(Log[0], Log[1], Log[2], Log[3], "10.0.0.1 ", "10.0.0.2 ");
  }

  lemma TiedLogTally()
    ensures Tally(TiedLog) == map["10.0.0.2 " := 1, "10.0.0.1 " := 1]
  {
    KeyKeepsWhitespace();
    KeyOfSecondAddress();
    TallyOfTwo(TiedLog[0], TiedLog[1], "10.0.0.2 ", "10.0.0.1 ");
  }

  lemma FormatTopEntry()
    ensures FormatLine(IpCount("10.0.0.1 ", 2)) == "2 10.0.0.1 \n"
    ensures FormatLine(IpCount("10.0.0.1 ", 1)) == "1 10.0.0.1 \n"
    ensures FormatLine(IpCount("10.0.0.2 ", 1)) == "1 10.0.0.2 \n"
  {
    assert Decimal(2) == "2" && Decimal(1) == "1";
  }

  lemma LogRanking(t: Table, ranked: seq<IpCount>)
    requires t == map["10.0.0.1 " := 2, "10.0.0.2 " := 1]
    requires IsRankingOf(ranked, t)
    ensures ranked == [IpCount("10.0.0.1 ", 2), IpCount("10.0.0.2 ", 1)]
  {
    var expected := [IpCount("10.0.0.1 ", 2), IpCount("10.0.0.2 ", 1)];
    assert IsRankingOf(expected, t);
    RankingDeterministic(t, ranked, expected);
  }

  lemma LogPrinted(t: Table, ranked: seq<IpCount>, out: seq<string>)
    requires t == map["10.0.0.1 " := 2, "10.0.0.2 " := 1]
    requires ranked == [IpCount("10.0.0.1 ", 2), IpCount("10.0.0.2 ", 1)]
    requires IsReportOf(t, 1, ranked, out)
    ensures out == ["2 10.0.0.1 \n"]
  {
    assert TableCountsAbove(t, 2) == {};
    assert TableCountsAbove(t, 1) == {2};
    assert 0 < |out| && 1 >= |out|;
    FormatTopEntry();
  }

  /** With n = 1 only the top tier is printed: the single line for 10.0.0.1
      with its count 2. */
  lemma LogTopOne(ranked: seq<IpCount>, out: seq<string>)
    requires IsReport(Log, 1, ranked, out)
    ensures ranked == [IpCount("10.0.0.1 ", 2), IpCount("10.0.0.2 ", 1)]
    ensures out == ["2 10.0.0.1 \n"]
  {
    LogTally();
    var t := map["10.0.0.1 " := 2, "10.0.0.2 " := 1];
    assert IsReportOf(t, 1, ranked, out);
    LogRanking(t, ranked);
    LogPrinted(t, ranked, out);
  }

  /** Equal counts: the smaller address sorts first. */
  lemma TiedOrder()
    ensures Before(IpCount("10.0.0.1 ", 1), IpCount("10.0.0.2 ", 1))
  {
    var a, b := "10.0.0.1 ", "10.0.0.2 ";
    assert a[..7] == b[..7] && a[7] < b[7];
    CompareSpec(IpCount(a, 1), IpCount(b, 1));
  }

  lemma TiedSorted(t: Table, expected: seq<IpCount>)
    requires t == map["10.0.0.2 " := 1, "10.0.0.1 " := 1]
    requires expected == [IpCount("10.0.0.1 ", 1), IpCount("10.0.0.2 ", 1)]
    ensures IsRankingOf(expected, t)
  {
    TiedOrder();
    assert Sorted(expected);
  }

  lemma TiedRanking(t: Table, ranked: seq<IpCount>)
    requires t == map["10.0.0.2 " := 1, "10.0.0.1 " := 1]
    requires IsRankingOf(ranked, t)
    ensures ranked == [IpCount("10.0.0.1 ", 1), IpCount("10.0.0.2 ", 1)]
  {
    var expected := [IpCount("10.0.0.1 ", 1), IpCount("10.0.0.2 ", 1)];
    TiedSorted(t, expected);
    RankingDeterministic(t, ranked, expected);
  }

  lemma TiedPrinted(t: Table, ranked: seq<IpCount>, out: seq<string>)
    requires t == map["10.0.0.2 " := 1, "10.0.0.1 " := 1]
    requires ranked == [IpCount("10.0.0.1 ", 1), IpCount("10.0.0.2 ", 1)]
    requires IsReportOf(t, 1, ranked, out)
    ensures out == ["1 10.0.0.1 \n", "1 10.0.0.2 \n"]
  {
    assert TableCountsAbove(t, 1) == {};
    assert 1 < |out|;
    FormatTopEntry();
  }

  /** Both addresses share the top count, so n = 1 prints both, the
      lexicographically smaller address first. */
  lemma TiedTopOne(ranked: seq<IpCount>, out: seq<string>)
    requires IsReport(TiedLog, 1, ranked, out)
    ensures ranked == [IpCount("10.0.0.1 ", 1), IpCount("10.0.0.2 ", 1)]
    ensures out == ["1 10.0.0.1 \n", "1 10.0.0.2 \n"]
  {
    TiedLogTally();
    var t := map["10.0.0.2 " := 1, "10.0.0.1 " := 1];
    assert IsReportOf(t, 1, ranked, out);
    TiedRanking(t, ranked);
    TiedPrinted(t, ranked, out);
  }
}

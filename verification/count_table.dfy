/** The table most-ip builds while scanning the log: every matched key mapped
    to the number of lines it headed. Lines are visited in order, as the
    program reads them; a line the pattern rejects is skipped silently. */
module CountTable {
  import opened Wrappers
  import opened LineMatch

  type Table = map<string, nat>

  /** One iteration of the scanning loop: a rejected line leaves the table as
      it is; a matched line adds one to its key's count, entering the key
      with count 1 the first time, and no other key changes. */
  function Record(t: Table, line: string): (r: Table)
    ensures KeyOf(line).None? ==> r == t
    ensures KeyOf(line).Some? ==>
              var k := KeyOf(line).value;
              && r.Keys == t.Keys + {k}
              && r[k] == (if k in t then t[k] + 1 else 1)
              && forall j :: j in t && j != k ==> r[j] == t[j]
  {
    match KeyOf(line)
    case None => t
    case Some(k) => t[k := if k in t then t[k] + 1 else 1]
  }

  /** The table after scanning all of `lines`, starting from an empty one. */
  function Tally(lines: seq<string>): (t: Table)
    ensures forall k :: k in t ==> t[k] >= 1
    ensures forall k :: k in t ==> exists i :: 0 <= i < |lines| && KeyOf(lines[i]) == Some(k)
    decreases |lines|
  {
    if |lines| == 0 then map[]
    else
      var t := Record(Tally(lines[..|lines| - 1]), lines[|lines| - 1]);
      assert forall i :: 0 <= i < |lines| - 1 ==> lines[..|lines| - 1][i] == lines[i];
      t
  }

  /** The positions of the lines whose key is k. */
  function LinesWithKey(lines: seq<string>, k: string): set<nat> {
    set i: nat | i < |lines| && KeyOf(lines[i]) == Some(k)
  }

  /** The positions of the lines the pattern accepts. */
  function MatchingLines(lines: seq<string>): set<nat> {
    set i: nat | i < |lines| && KeyOf(lines[i]).Some?
  }

  lemma LinesWithKeyStep(lines: seq<string>, k: string)
    requires |lines| > 0
    ensures var n := |lines| - 1;
            LinesWithKey(lines, k) ==
              LinesWithKey(lines[..n], k) + (if KeyOf(lines[n]) == Some(k) then {n} else {})
  {
    var n := |lines| - 1;
    assert forall i :: 0 <= i < n ==> lines[..n][i] == lines[i];
  }

  lemma MatchingLinesStep(lines: seq<string>)
    requires |lines| > 0
    ensures var n := |lines| - 1;
            MatchingLines(lines) ==
              MatchingLines(lines[..n]) + (if KeyOf(lines[n]).Some? then {n} else {})
  {
    var n := |lines| - 1;
    assert forall i :: 0 <= i < n ==> lines[..n][i] == lines[i];
  }

  /** The count stored for k is the number of lines whose key is k, and k is in
      the table exactly when at least one line has it. */
  lemma {:induction false} TallyCounts(lines: seq<string>, k: string)
    ensures k in Tally(lines) <==> |LinesWithKey(lines, k)| > 0
    ensures k in Tally(lines) ==> Tally(lines)[k] == |LinesWithKey(lines, k)|
    decreases |lines|
  {
    if |lines| == 0 {
      assert LinesWithKey(lines, k) == {};
    } else {
      var n := |lines| - 1;
      TallyCounts(lines[..n], k);
      LinesWithKeyStep(lines, k);
      assert n !in LinesWithKey(lines[..n], k);
    }
  }

  /** The sum of the counts in a table. */
  ghost function SumCounts(t: Table): nat
    decreases |t|
  {
    if |t| == 0 then 0
    else
      var k := PickKey(t);
      assert |t - {k}| < |t| by {
        assert (t - {k}).Keys == t.Keys - {k};
      }
      t[k] + SumCounts(t - {k})
  }

  ghost function PickKey(t: Table): (k: string)
    requires |t| > 0
    ensures k in t
  {
    assert t.Keys != {} by {
      if t.Keys == {} {
        assert false;
      }
    }
    var k :| k in t; k
  }

  /** The sum does not depend on which key is taken out first. */
  lemma {:induction false} SumCountsRemove(t: Table, k: string)
    requires k in t
    ensures SumCounts(t) == t[k] + SumCounts(t - {k})
    decreases |t|
  {
    var j := PickKey(t);
    if j != k {
      assert (t - {j}).Keys == t.Keys - {j};
      assert (t - {k}).Keys == t.Keys - {k};
      SumCountsRemove(t - {j}, k);
      SumCountsRemove(t - {k}, j);
      assert t - {j} - {k} == t - {k} - {j};
    }
  }

  /** Recording a line adds one to the total exactly when the line matches. */
  lemma RecordSum(t: Table, line: string)
    ensures SumCounts(Record(t, line)) == SumCounts(t) + (if KeyOf(line).Some? then 1 else 0)
  {
    if KeyOf(line).Some? {
      var k := KeyOf(line).value;
      var r := Record(t, line);
      SumCountsRemove(r, k);
      if k in t {
        assert r - {k} == t - {k};
        SumCountsRemove(t, k);
      } else {
        assert r - {k} == t;
      }
    }
  }

  /** After the scan the counts add up to the number of matching lines. */
  lemma {:induction false} TallySum(lines: seq<string>)
    ensures SumCounts(Tally(lines)) == |MatchingLines(lines)|
    decreases |lines|
  {
    if |lines| == 0 {
      assert MatchingLines(lines) == {};
    } else {
      var n := |lines| - 1;
      TallySum(lines[..n]);
      RecordSum(Tally(lines[..n]), lines[n]);
      MatchingLinesStep(lines);
      assert n !in MatchingLines(lines[..n]);
    }
  }
}

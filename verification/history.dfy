/** The phone's side of the saved configurations: reading a desktop file of
    concatenated records (`chosenScenario`), selecting the chosen scenario
    and counting its Goals, and the bounded local history
    (`SaveCloudAnchorHistory`). */
module History {
  import opened Text
  import opened Records

  /** Every serialized record ends with the close of its object list. */
  const RecordEnd: String := "]}"

  /** `line.Split("]}")`, each piece but the last with "]}" put back: the
      text handed to `JsonUtility.FromJson` one record at a time. */
  function SplitRecords(line: String): (rs: seq<String>)
    ensures |rs| == |Split(line, RecordEnd)| - 1
    ensures forall i :: 0 <= i < |rs| ==> rs[i] == Split(line, RecordEnd)[i] + RecordEnd
  {
    var pieces := Split(line, RecordEnd);
    seq(|pieces| - 1, i requires 0 <= i < |pieces| - 1 => pieces[i] + RecordEnd)
  }

  /** The split of a file written by appending records, each containing
      "]}" only as its end: the record bodies and a final empty piece. */
  lemma {:induction false} SplitConcat(recs: seq<String>)
    requires forall i :: 0 <= i < |recs| ==> OnlyAtEnd(recs[i], RecordEnd)
    ensures |Split(Concat(recs), RecordEnd)| == |recs| + 1
    ensures forall i :: 0 <= i < |recs| ==> Split(Concat(recs), RecordEnd)[i] + RecordEnd == recs[i]
    ensures Split(Concat(recs), RecordEnd)[|recs|] == ""
    decreases |recs|
  {
    if |recs| == 0 {
      assert Concat(recs) == "";
    } else {
      var rest := recs[1..];
      assert forall i :: 0 <= i < |rest| ==> rest[i] == recs[i + 1];
      SplitConcat(rest);
      SplitConcatStep(recs);
    }
  }

  /** The induction step: the first record's body goes in front of the
      pieces of the rest. */
  lemma SplitConcatStep(recs: seq<String>)
    requires |recs| >= 1 && OnlyAtEnd(recs[0], RecordEnd)
    requires |Split(Concat(recs[1..]), RecordEnd)| == |recs|
    requires forall i :: 0 <= i < |recs| - 1 ==> Split(Concat(recs[1..]), RecordEnd)[i] + RecordEnd == recs[1..][i]
    requires Split(Concat(recs[1..]), RecordEnd)[|recs| - 1] == ""
    ensures |Split(Concat(recs), RecordEnd)| == |recs| + 1
    ensures forall i :: 0 <= i < |recs| ==> Split(Concat(recs), RecordEnd)[i] + RecordEnd == recs[i]
    ensures Split(Concat(recs), RecordEnd)[|recs|] == ""
  {
    var rest := recs[1..];
    var p := recs[0][..|recs[0]| - |RecordEnd|];
    assert recs[0] == p + RecordEnd;
    assert Concat(recs) == p + RecordEnd + Concat(rest);
    SplitAtFirst(p, RecordEnd, Concat(rest));
    PiecesCons(recs, p, Split(Concat(rest), RecordEnd));
  }

  /** One record in front: its body goes in front of the pieces of the
      rest. */
  lemma PiecesCons(recs: seq<String>, p: String, t: seq<String>)
    requires |recs| >= 1 && recs[0] == p + RecordEnd
    requires |t| == |recs|
    requires forall i :: 0 <= i < |recs| - 1 ==> t[i] + RecordEnd == recs[1..][i]
    requires t[|recs| - 1] == ""
    ensures var s := [p] + t;
            |s| == |recs| + 1 && s[|recs|] == "" &&
            forall i :: 0 <= i < |recs| ==> s[i] + RecordEnd == recs[i]
  {
    var s := [p] + t;
    forall i | 0 <= i < |recs|
      ensures s[i] + RecordEnd == recs[i]
    {
      if i > 0 {
        assert s[i] == t[i - 1];
      }
    }
  }

  /** Hence splitting such a file gives back exactly the records written. */
  lemma SplitRecordsConcat(recs: seq<String>)
    requires forall i :: 0 <= i < |recs| ==> OnlyAtEnd(recs[i], RecordEnd)
    ensures SplitRecords(Concat(recs)) == recs
  {
    SplitConcat(recs);
    var pieces := Split(Concat(recs), RecordEnd);
    var rs := SplitRecords(Concat(recs));
    assert |rs| == |recs|;
    forall i | 0 <= i < |recs|
      ensures rs[i] == recs[i]
    {
      assert rs[i] == pieces[i] + RecordEnd;
    }
  }

  /** Number of objects named "Goal". */
  function GoalsIn(objs: seq<AnchorObject>): (n: nat)
    ensures n <= |objs|
    ensures n == 0 <==> forall i :: 0 <= i < |objs| ==> objs[i].prefabName != "Goal"
  {
    if |objs| == 0 then 0
    else GoalsIn(objs[..|objs| - 1]) + (if objs[|objs| - 1].prefabName == "Goal" then 1 else 0)
  }

  /** What `chosenScenario` collects: the records of the scenario, in file
      order, and the number of Goals among their objects. */
  datatype Chosen = Chosen(anchorsToResolve: seq<ThesisHistory>, checkpointsToGoal: nat)

  function ForScenario(coll: seq<ThesisHistory>, scenario: String): (r: Chosen)
    ensures |r.anchorsToResolve| <= |coll|
    ensures forall h :: h in r.anchorsToResolve <==> h in coll && h.scenario == scenario
  {
    if |coll| == 0 then Chosen([], 0)
    else
      var c := ForScenario(coll[..|coll| - 1], scenario);
      var h := coll[|coll| - 1];
      assert coll == coll[..|coll| - 1] + [h];
      AddRecord(c, h, scenario)
  }

  /** One iteration of the `foreach`: a record of the scenario is kept and
      its Goals counted. */
  function AddRecord(c: Chosen, h: ThesisHistory, scenario: String): (r: Chosen)
    ensures h.scenario == scenario ==> r.anchorsToResolve == c.anchorsToResolve + [h]
    ensures h.scenario != scenario ==> r == c
  {
    if h.scenario == scenario then Chosen(c.anchorsToResolve + [h], c.checkpointsToGoal + GoalsIn(h.objects))
    else c
  }

  /** The Goal count is the sum over the selected records. */
  function GoalsOf(hs: seq<ThesisHistory>): nat {
    if |hs| == 0 then 0 else GoalsOf(hs[..|hs| - 1]) + GoalsIn(hs[|hs| - 1].objects)
  }

  lemma {:induction false} ForScenarioCounts(coll: seq<ThesisHistory>, scenario: String)
    ensures ForScenario(coll, scenario).checkpointsToGoal == GoalsOf(ForScenario(coll, scenario).anchorsToResolve)
    decreases |coll|
  {
    if |coll| > 0 {
      var init := coll[..|coll| - 1];
      ForScenarioCounts(init, scenario);
      var a := ForScenario(init, scenario).anchorsToResolve;
      var h := coll[|coll| - 1];
      assert (a + [h])[..|a + [h]| - 1] == a;
    }
  }

  /** Reading two files' worth of records is reading each and adding up. */
  lemma {:induction false} ForScenarioAppend(a: seq<ThesisHistory>, b: seq<ThesisHistory>, scenario: String)
    ensures ForScenario(a + b, scenario).anchorsToResolve ==
            ForScenario(a, scenario).anchorsToResolve + ForScenario(b, scenario).anchorsToResolve
    ensures ForScenario(a + b, scenario).checkpointsToGoal ==
            ForScenario(a, scenario).checkpointsToGoal + ForScenario(b, scenario).checkpointsToGoal
    decreases |b|
  {
    if |b| == 0 {
      assert a + b == a;
    } else {
      var b' := b[..|b| - 1];
      var x := b[|b| - 1];
      ForScenarioAppend(a, b', scenario);
      AppendLast(a, b);
      ForScenarioSnoc(a + b', x, scenario);
      ForScenarioSnoc(b', x, scenario);
      AddRecordSum(ForScenario(a, scenario), ForScenario(b', scenario), ForScenario(a + b', scenario), x, scenario);
    }
  }

  lemma AppendLast<T>(a: seq<T>, b: seq<T>)
    requires |b| > 0
    ensures b == b[..|b| - 1] + [b[|b| - 1]]
    ensures a + b == (a + b[..|b| - 1]) + [b[|b| - 1]]
  {
  }

  /** One more record at the end is one more iteration. */
  lemma ForScenarioSnoc(coll: seq<ThesisHistory>, h: ThesisHistory, scenario: String)
    ensures ForScenario(coll + [h], scenario) == AddRecord(ForScenario(coll, scenario), h, scenario)
  {
    assert (coll + [h])[..|coll|] == coll;
  }

  /** An iteration on a sum of two selections adds to the second. */
  lemma AddRecordSum(a: Chosen, b: Chosen, ab: Chosen, h: ThesisHistory, scenario: String)
    requires ab.anchorsToResolve == a.anchorsToResolve + b.anchorsToResolve
    requires ab.checkpointsToGoal == a.checkpointsToGoal + b.checkpointsToGoal
    ensures AddRecord(ab, h, scenario).anchorsToResolve ==
            a.anchorsToResolve + AddRecord(b, h, scenario).anchorsToResolve
    ensures AddRecord(ab, h, scenario).checkpointsToGoal ==
            a.checkpointsToGoal + AddRecord(b, h, scenario).checkpointsToGoal
  {
    if h.scenario == scenario {
      assert (a.anchorsToResolve + b.anchorsToResolve) + [h] == a.anchorsToResolve + (b.anchorsToResolve + [h]);
    }
  }

  /** `chosenScenario` reading a desktop configuration file: `parse` stands
      for `JsonUtility.FromJson<MyThesisHistory>`. */
  function ChosenScenario(line: String, scenario: String, parse: String -> ThesisHistory): (r: Chosen)
    ensures |r.anchorsToResolve| <= |SplitRecords(line)|
    ensures forall h :: h in r.anchorsToResolve ==> h.scenario == scenario
  {
    var rs := SplitRecords(line);
    ForScenario(seq(|rs|, i requires 0 <= i < |rs| => parse(rs[i])), scenario)
  }

  /** A file written record by record is read back record by record: given
      a serializer `ser` that `parse` inverts and whose output contains "]}"
      only at its end, the scenario sees exactly the records written. */
  lemma ChosenScenarioRoundTrip(hs: seq<ThesisHistory>, scenario: String,
                                ser: ThesisHistory -> String, parse: String -> ThesisHistory)
    requires forall h :: OnlyAtEnd(ser(h), RecordEnd) && parse(ser(h)) == h
    ensures ChosenScenario(Concat(seq(|hs|, i requires 0 <= i < |hs| => ser(hs[i]))), scenario, parse)
            == ForScenario(hs, scenario)
  {
    var recs := seq(|hs|, i requires 0 <= i < |hs| => ser(hs[i]));
    SplitRecordsConcat(recs);
    var rs := SplitRecords(Concat(recs));
    assert seq(|rs|, i requires 0 <= i < |rs| => parse(rs[i])) == hs;
  }

  // ---------------------------------------------------------------------
  // Local history

  /** The capacity of the phone's local history. */
  const StorageLimit: nat := 30

  /** `SaveCloudAnchorHistory` as written: append, and when over the limit
      remove `StorageLimit - 1` records from the front. */
  function SaveHistoryAsWritten(coll: seq<ThesisHistory>, data: ThesisHistory): (r: seq<ThesisHistory>)
    ensures |r| >= 1 && r[|r| - 1] == data
  {
    var c := coll + [data];
    if |c| > StorageLimit then c[StorageLimit - 1..] else c
  }

  /** The 31st save leaves two records out of thirty-one. */
  lemma SaveHistoryAsWrittenLosesRecords(coll: seq<ThesisHistory>, data: ThesisHistory)
    requires |coll| == StorageLimit
    ensures |SaveHistoryAsWritten(coll, data)| == 2
  {
  }

  /** The bounded history: append, then drop only as many of the oldest as
      needed to stay within the limit. */
  function SaveHistory(coll: seq<ThesisHistory>, data: ThesisHistory): (r: seq<ThesisHistory>)
    ensures |r| == if |coll| + 1 > StorageLimit then StorageLimit else |coll| + 1
    ensures r == (coll + [data])[|coll| + 1 - |r|..]
    ensures r[|r| - 1] == data
  {
    var c := coll + [data];
    if |c| > StorageLimit then c[|c| - StorageLimit..] else c
  }

  /** Successive saves. */
  function SaveAllHistory(coll: seq<ThesisHistory>, news: seq<ThesisHistory>): seq<ThesisHistory> {
    if |news| == 0 then coll
    else SaveHistory(SaveAllHistory(coll, news[..|news| - 1]), news[|news| - 1])
  }

  /** How many of n records do not fit. */
  function Overflow(n: nat): nat {
    if n > StorageLimit then n - StorageLimit else 0
  }

  /** Starting from a history within the limit, any run of saves holds
      exactly the most recent `StorageLimit` records of everything saved,
      oldest first. */
  lemma {:induction false} SaveAllKeepsLatest(coll: seq<ThesisHistory>, news: seq<ThesisHistory>)
    requires |coll| <= StorageLimit
    ensures SaveAllHistory(coll, news) == (coll + news)[Overflow(|coll| + |news|)..]
    decreases |news|
  {
    if |news| == 0 {
      assert coll + news == coll;
    } else {
      var init := news[..|news| - 1];
      var x := news[|news| - 1];
      var all := coll + init;
      var o := Overflow(|all|);
      SaveAllKeepsLatest(coll, init);
      var h := SaveAllHistory(coll, init);
      assert coll + news == all + [x];
      SliceAppend(all, x, o);
      var r := SaveHistory(h, x);
      SliceOfSlice(all + [x], o, |h| + 1 - |r|);
      assert o + (|h| + 1 - |r|) == Overflow(|all| + 1);
    }
  }

  lemma SliceAppend<T>(a: seq<T>, x: T, i: nat)
    requires i <= |a|
    ensures (a + [x])[i..] == a[i..] + [x]
  {
  }

  lemma SliceOfSlice<T>(a: seq<T>, i: nat, j: nat)
    requires i + j <= |a|
    ensures a[i..][j..] == a[i + j..]
  {
  }
}

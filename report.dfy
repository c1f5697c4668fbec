/** build_report: one row per lumbar level, a tally of conditions, and the
    overall triage status taken from the worst finding. */
module Reporting {
  import opened Config
  import opened Inference

  /** One entry of the report's "discs" list. */
  datatype DiscRow<C> = DiscRow(discLevel: string, condition: string, confidence: C, severity: string)

  /** The report, without its timestamp and processing time. */
  datatype Report<C> = Report(imageName: string, discs: seq<DiscRow<C>>, summary: map<string, nat>, overallStatus: string)

  /** The condition written into a row for a level without a detection. */
  const NotDetected := "Not Detected"

  /** The conditions a row can carry. */
  const ConditionNames: set<string> := {"Normal", "Bulging", "Herniation", "Unknown", NotDetected}

  /** The summary before any level is counted. */
  const InitialSummary: map<string, nat> := map["Normal" := 0, "Bulging" := 0, "Herniation" := 0, "Not_Detected" := 0]

  /** Every key a summary can hold. */
  const SummaryKeys: set<string> := {"Normal", "Bulging", "Herniation", "Not_Detected", "Unknown"}

  /** The dictionary {d["disc_level"]: d for d in detections}: a later record
      with the same label replaces an earlier one. */
  function DetectedMap<C>(ds: seq<LabelledDetection<C>>): map<string, LabelledDetection<C>> {
    if ds == [] then map[]
    else DetectedMap(ds[..|ds| - 1])[ds[|ds| - 1].discLevel := ds[|ds| - 1]]
  }

  /** The keys of the dictionary are exactly the labels of the records. */
  lemma {:induction false} DetectedMapKeys<C>(ds: seq<LabelledDetection<C>>, l: string)
    ensures l in DetectedMap(ds) <==> exists i :: 0 <= i < |ds| && ds[i].discLevel == l
  {
    if ds != [] {
      var prefix := ds[..|ds| - 1];
      DetectedMapKeys(prefix, l);
      if l in DetectedMap(prefix) {
        var i :| 0 <= i < |prefix| && prefix[i].discLevel == l;
        assert ds[i].discLevel == l;
      }
      if exists i :: 0 <= i < |ds| && ds[i].discLevel == l {
        var i :| 0 <= i < |ds| && ds[i].discLevel == l;
        if i < |prefix| {
          assert prefix[i].discLevel == l;
        }
      }
    }
  }

  /** A label maps to the last record that carries it. */
  lemma {:induction false} DetectedMapLast<C>(ds: seq<LabelledDetection<C>>, i: nat)
    requires i < |ds|
    requires forall j :: i < j < |ds| ==> ds[j].discLevel != ds[i].discLevel
    ensures ds[i].discLevel in DetectedMap(ds) && DetectedMap(ds)[ds[i].discLevel] == ds[i]
  {
    if i < |ds| - 1 {
      var prefix := ds[..|ds| - 1];
      assert prefix[i] == ds[i];
      DetectedMapLast(prefix, i);
    }
  }

  /** A label present in the dictionary maps to the last record carrying it. */
  lemma {:induction false} DetectedMapLastWins<C>(ds: seq<LabelledDetection<C>>, l: string)
    requires l in DetectedMap(ds)
    ensures exists i :: 0 <= i < |ds| && ds[i].discLevel == l && DetectedMap(ds)[l] == ds[i]
                        && forall j :: i < j < |ds| ==> ds[j].discLevel != l
  {
    var n := |ds| - 1;
    if ds[n].discLevel != l {
      var prefix := ds[..n];
      DetectedMapLastWins(prefix, l);
      var i :| 0 <= i < |prefix| && prefix[i].discLevel == l && DetectedMap(prefix)[l] == prefix[i]
               && forall j :: i < j < |prefix| ==> prefix[j].discLevel != l;
      assert ds[i] == prefix[i];
      forall j | i < j < |ds| ensures ds[j].discLevel != l {
        if j < n {
          assert ds[j] == prefix[j];
        }
      }
    }
  }

  /** The row for one level, given the detections keyed by label. */
  function RowFor<C>(level: string, dm: map<string, LabelledDetection<C>>, zero: C): DiscRow<C>
  {
    if level in dm then
      var d := dm[level].det;
      var cfg := ClassFor(d.clsId);
      DiscRow(level, cfg.name, d.conf, cfg.severity)
    else
      DiscRow(level, NotDetected, zero, "unknown")
  }

  /** The row for a level: the level itself; "Not Detected" with severity
      "unknown" and the placeholder confidence when no record has the level;
      otherwise a condition from the class table and the record's confidence.
      The severity is "unknown" exactly for missing levels and unknown classes. */
  lemma RowForMeaning<C>(level: string, dm: map<string, LabelledDetection<C>>, zero: C)
    ensures RowFor(level, dm, zero).discLevel == level
    ensures RowFor(level, dm, zero).condition in ConditionNames
    ensures RowFor(level, dm, zero).condition == NotDetected <==> level !in dm
    ensures level !in dm ==> RowFor(level, dm, zero).confidence == zero
    ensures level in dm ==> RowFor(level, dm, zero).confidence == dm[level].det.conf
    ensures level in dm ==> RowFor(level, dm, zero).condition == ClassFor(dm[level].det.clsId).name
                            && RowFor(level, dm, zero).severity == ClassFor(dm[level].det.clsId).severity
    ensures RowFor(level, dm, zero).severity == "unknown"
            <==> RowFor(level, dm, zero).condition in {NotDetected, "Unknown"}
  {
  }

  function Rows<C>(levels: seq<string>, dm: map<string, LabelledDetection<C>>, zero: C): seq<DiscRow<C>> {
    seq(|levels|, j requires 0 <= j < |levels| => RowFor(levels[j], dm, zero))
  }

  /** The rows of one more level extend the rows of the levels before it. */
  lemma RowsTake<C>(levels: seq<string>, j: nat, dm: map<string, LabelledDetection<C>>, zero: C)
    requires j < |levels|
    ensures Rows(levels[..j + 1], dm, zero) == Rows(levels[..j], dm, zero) + [RowFor(levels[j], dm, zero)]
  {
  }

  /** Each row is for its own level and carries one of the known conditions,
      which is "Not Detected" exactly when no record has that level. */
  lemma RowConditions<C>(levels: seq<string>, dm: map<string, LabelledDetection<C>>, zero: C)
    ensures forall i :: 0 <= i < |levels| ==>
              var row := Rows(levels, dm, zero)[i];
              row.discLevel == levels[i] && row.condition in ConditionNames
              && (row.condition == NotDetected <==> levels[i] !in dm)
  {
    forall i | 0 <= i < |levels|
      ensures var row := Rows(levels, dm, zero)[i];
              row.discLevel == levels[i] && row.condition in ConditionNames
              && (row.condition == NotDetected <==> levels[i] !in dm)
    {
      if levels[i] in dm {
        var name := ClassFor(dm[levels[i]].det.clsId).name;
        assert name in ConditionNames && name != NotDetected;
      }
    }
  }

  /** The summary key a row is counted under. */
  function KeyOf(condition: string): string {
    if condition == NotDetected then "Not_Detected" else condition
  }

  /** The number of rows counted under key. */
  function CountKey<C>(rows: seq<DiscRow<C>>, key: string): nat {
    if rows == [] then 0
    else CountKey(rows[..|rows| - 1], key) + (if KeyOf(rows[|rows| - 1].condition) == key then 1 else 0)
  }

  function KeysOf<C>(rows: seq<DiscRow<C>>): set<string> {
    set i | 0 <= i < |rows| :: KeyOf(rows[i].condition)
  }

  /** The summary after counting the rows in order: starting from the four
      fixed keys at 0, each row increments the key of its condition. */
  function SummaryOf<C>(rows: seq<DiscRow<C>>): map<string, nat> {
    if rows == [] then InitialSummary
    else
      var before := SummaryOf(rows[..|rows| - 1]);
      var key := KeyOf(rows[|rows| - 1].condition);
      before[key := Get(before, key) + 1]
  }

  /** summary.get(k, 0) */
  function Get(m: map<string, nat>, k: string): nat {
    if k in m then m[k] else 0
  }

  /** The overall status, from the worst finding counted. */
  function OverallStatus(summary: map<string, nat>): string {
    if Get(summary, "Herniation") > 0 then "Critical"
    else if Get(summary, "Bulging") > 0 then "Attention Required"
    else "Normal"
  }

  /** The status is the worst finding counted: Critical with any herniation,
      otherwise Attention Required with any bulging, otherwise Normal. */
  lemma OverallStatusCases(summary: map<string, nat>)
    ensures OverallStatus(summary) == "Critical" <==> Get(summary, "Herniation") > 0
    ensures OverallStatus(summary) == "Attention Required"
            <==> Get(summary, "Herniation") == 0 && Get(summary, "Bulging") > 0
    ensures OverallStatus(summary) == "Normal"
            <==> Get(summary, "Herniation") == 0 && Get(summary, "Bulging") == 0
  {
  }

  /** The sum of all values of a summary whose keys lie in SummaryKeys. */
  function SummaryTotal(m: map<string, nat>): nat {
    Get(m, "Normal") + Get(m, "Bulging") + Get(m, "Herniation") + Get(m, "Not_Detected") + Get(m, "Unknown")
  }

  function ReportOf<C>(detections: seq<LabelledDetection<C>>, filename: string, zero: C): Report<C> {
    var rows := Rows(DiscLevels, DetectedMap(detections), zero);
    Report(filename, rows, SummaryOf(rows), OverallStatus(SummaryOf(rows)))
  }

  /** A key has a positive count exactly when some row is counted under it. */
  lemma {:induction false} CountKeyPositive<C>(rows: seq<DiscRow<C>>, key: string)
    ensures CountKey(rows, key) > 0 <==> exists i :: 0 <= i < |rows| && KeyOf(rows[i].condition) == key
  {
    if rows != [] {
      var prefix := rows[..|rows| - 1];
      CountKeyPositive(prefix, key);
      assert forall i :: 0 <= i < |prefix| ==> prefix[i] == rows[i];
    }
  }

  /** Reading a key of the summary gives its row count, present or not. */
  lemma {:induction false} GetSummary<C>(rows: seq<DiscRow<C>>, key: string)
    ensures Get(SummaryOf(rows), key) == CountKey(rows, key)
  {
    if rows != [] {
      GetSummary(rows[..|rows| - 1], key);
    }
  }

  lemma KeysOfSnoc<C>(rows: seq<DiscRow<C>>, row: DiscRow<C>)
    ensures KeysOf(rows + [row]) == KeysOf(rows) + {KeyOf(row.condition)}
  {
    var rs := rows + [row];
    forall k | k in KeysOf(rs) ensures k in KeysOf(rows) + {KeyOf(row.condition)} {
      var i :| 0 <= i < |rs| && KeyOf(rs[i].condition) == k;
      if i < |rows| {
        assert rows[i] == rs[i];
      }
    }
    forall k | k in KeysOf(rows) ensures k in KeysOf(rs) {
      var i :| 0 <= i < |rows| && KeyOf(rows[i].condition) == k;
      assert rs[i] == rows[i];
    }
    assert rs[|rows|] == row;
  }

  /** The summary holds the four fixed keys and every key some row is
      counted under, and nothing else. */
  lemma {:induction false} SummaryKeysOf<C>(rows: seq<DiscRow<C>>)
    ensures SummaryOf(rows).Keys == InitialSummary.Keys + KeysOf(rows)
  {
    if rows != [] {
      var prefix, last := rows[..|rows| - 1], rows[|rows| - 1];
      assert rows == prefix + [last];
      SummaryKeysOf(prefix);
      KeysOfSnoc(prefix, last);
    }
  }

  /** Each key of the summary holds its number of rows; a key is present
      exactly when it is one of the four fixed keys or some row is counted
      under it. */
  lemma SummaryOfCounts<C>(rows: seq<DiscRow<C>>, key: string)
    ensures Get(SummaryOf(rows), key) == CountKey(rows, key)
    ensures key in SummaryOf(rows)
            <==> key in InitialSummary || exists i :: 0 <= i < |rows| && KeyOf(rows[i].condition) == key
  {
    GetSummary(rows, key);
    SummaryKeysOf(rows);
  }

  /** A class name from the table is counted under itself. */
  lemma ClassNameIsKey(clsId: int)
    ensures KeyOf(ClassFor(clsId).name) == ClassFor(clsId).name
  {
    var name := ClassFor(clsId).name;
    assert name[0] != 'N' || name == "Normal";
  }

  /** Counting one more row increments the key of its condition. */
  lemma SummarySnoc<C>(rows: seq<DiscRow<C>>, row: DiscRow<C>)
    ensures SummaryOf(rows + [row]) == SummaryOf(rows)[KeyOf(row.condition) := Get(SummaryOf(rows), KeyOf(row.condition)) + 1]
  {
    assert (rows + [row])[..|rows|] == rows;
  }

  /** Counting the row of a detected level increments the key of its class name. */
  lemma CountFoundRow<C>(rows: seq<DiscRow<C>>, summary: map<string, nat>, level: string, clsId: int, conf: C)
    requires summary == SummaryOf(rows)
    ensures var cfg := ClassFor(clsId);
            summary[cfg.name := Get(summary, cfg.name) + 1] == SummaryOf(rows + [DiscRow(level, cfg.name, conf, cfg.severity)])
  {
    var cfg := ClassFor(clsId);
    ClassNameIsKey(clsId);
    SummarySnoc(rows, DiscRow(level, cfg.name, conf, cfg.severity));
  }

  /** Counting rows only adds keys, so the fixed ones stay. */
  lemma {:induction false} FixedKeysStay<C>(rows: seq<DiscRow<C>>, key: string)
    requires key in InitialSummary
    ensures key in SummaryOf(rows)
  {
    if rows != [] {
      FixedKeysStay(rows[..|rows| - 1], key);
    }
  }

  /** Counting the row of a missing level increments "Not_Detected", which is
      always present. */
  lemma CountMissingRow<C>(rows: seq<DiscRow<C>>, summary: map<string, nat>, level: string, zero: C)
    requires summary == SummaryOf(rows)
    ensures "Not_Detected" in summary
    ensures summary["Not_Detected" := summary["Not_Detected"] + 1] == SummaryOf(rows + [DiscRow(level, NotDetected, zero, "unknown")])
  {
    FixedKeysStay(rows, "Not_Detected");
    SummarySnoc(rows, DiscRow(level, NotDetected, zero, "unknown"));
  }

  /** Every row is counted under exactly one of the five summary keys. */
  lemma {:induction false} CountKeysTotal<C>(rows: seq<DiscRow<C>>)
    requires forall i :: 0 <= i < |rows| ==> rows[i].condition in ConditionNames
    ensures CountKey(rows, "Normal") + CountKey(rows, "Bulging") + CountKey(rows, "Herniation")
          + CountKey(rows, "Not_Detected") + CountKey(rows, "Unknown") == |rows|
  {
    if rows != [] {
      var prefix := rows[..|rows| - 1];
      assert forall i :: 0 <= i < |prefix| ==> prefix[i] == rows[i];
      CountKeysTotal(prefix);
      assert KeyOf(rows[|rows| - 1].condition) in SummaryKeys;
    }
  }

  /** Rows with known conditions are counted only under the five summary keys. */
  lemma KeysOfKnown<C>(rows: seq<DiscRow<C>>)
    requires forall i :: 0 <= i < |rows| ==> rows[i].condition in ConditionNames
    ensures KeysOf(rows) <= SummaryKeys
  {
    forall k | k in KeysOf(rows) ensures k in SummaryKeys {
      var i :| 0 <= i < |rows| && KeyOf(rows[i].condition) == k;
      assert KeyOf(rows[i].condition) in SummaryKeys;
    }
  }

  /** The summary of rows with known conditions has keys among the five and
      values adding up to the number of rows. */
  lemma SummaryAddsUp<C>(rows: seq<DiscRow<C>>)
    requires forall i :: 0 <= i < |rows| ==> rows[i].condition in ConditionNames
    ensures InitialSummary.Keys <= SummaryOf(rows).Keys <= SummaryKeys
    ensures SummaryTotal(SummaryOf(rows)) == |rows|
  {
    CountKeysTotal(rows);
    KeysOfKnown(rows);
    SummaryKeysOf(rows);
    GetSummary(rows, "Normal");
    GetSummary(rows, "Bulging");
    GetSummary(rows, "Herniation");
    GetSummary(rows, "Not_Detected");
    GetSummary(rows, "Unknown");
  }

  /** Some row carries the condition. */
  ghost predicate HasCondition<C>(rows: seq<DiscRow<C>>, condition: string) {
    exists i :: 0 <= i < |rows| && rows[i].condition == condition
  }

  /** The "Unknown" key appears exactly when some row has an unknown class. */
  lemma UnknownKeyIffUnknownRow<C>(rows: seq<DiscRow<C>>)
    ensures "Unknown" in SummaryOf(rows) <==> HasCondition(rows, "Unknown")
  {
    SummaryKeysOf(rows);
    if "Unknown" in KeysOf(rows) {
      var i :| 0 <= i < |rows| && KeyOf(rows[i].condition) == "Unknown";
      assert rows[i].condition == "Unknown";
    }
    if HasCondition(rows, "Unknown") {
      var i :| 0 <= i < |rows| && rows[i].condition == "Unknown";
      assert KeyOf(rows[i].condition) == "Unknown";
    }
  }

  /** The overall status is decided by the worst condition among the rows. */
  lemma StatusFromWorstFinding<C>(rows: seq<DiscRow<C>>)
    ensures OverallStatus(SummaryOf(rows)) == "Critical"
            <==> HasCondition(rows, "Herniation")
    ensures OverallStatus(SummaryOf(rows)) == "Attention Required"
            <==> !HasCondition(rows, "Herniation") && HasCondition(rows, "Bulging")
    ensures OverallStatus(SummaryOf(rows)) == "Normal"
            <==> !HasCondition(rows, "Herniation") && !HasCondition(rows, "Bulging")
  {
    GetSummary(rows, "Herniation");
    GetSummary(rows, "Bulging");
    CountKeyPositive(rows, "Herniation");
    CountKeyPositive(rows, "Bulging");
  }

  /** What the report promises: five rows in level order, detected levels
      filled from the class table, missing levels marked, a summary that counts
      the rows and adds up to five, and the status of the worst finding. */
  lemma ReportOfProperties<C>(detections: seq<LabelledDetection<C>>, filename: string, zero: C, report: Report<C>)
    requires report == ReportOf(detections, filename, zero)
    ensures report.imageName == filename
    ensures |report.discs| == |DiscLevels|
    ensures forall j :: 0 <= j < |DiscLevels| ==> report.discs[j].discLevel == DiscLevels[j]
    ensures forall j :: 0 <= j < |DiscLevels| && DiscLevels[j] !in DetectedMap(detections) ==>
              report.discs[j] == DiscRow(DiscLevels[j], NotDetected, zero, "unknown")
    ensures forall j :: 0 <= j < |DiscLevels| && DiscLevels[j] in DetectedMap(detections) ==>
              var d := DetectedMap(detections)[DiscLevels[j]].det;
              report.discs[j] == DiscRow(DiscLevels[j], ClassFor(d.clsId).name, d.conf, ClassFor(d.clsId).severity)
    ensures report.summary == SummaryOf(report.discs)
    ensures InitialSummary.Keys <= report.summary.Keys <= SummaryKeys
    ensures SummaryTotal(report.summary) == |DiscLevels|
    ensures "Unknown" in report.summary <==> HasCondition(report.discs, "Unknown")
    ensures report.overallStatus == "Critical"
            <==> HasCondition(report.discs, "Herniation")
    ensures report.overallStatus == "Attention Required"
            <==> !HasCondition(report.discs, "Herniation") && HasCondition(report.discs, "Bulging")
    ensures report.overallStatus == "Normal"
            <==> !HasCondition(report.discs, "Herniation") && !HasCondition(report.discs, "Bulging")
  {
    RowConditions(DiscLevels, DetectedMap(detections), zero);
    SummaryAddsUp(report.discs);
    UnknownKeyIffUnknownRow(report.discs);
    StatusFromWorstFinding(report.discs);
  }

  /** One pass of build_report's loop: the row for one level, taken from the
      class table when the level was detected and marked "Not Detected"
      otherwise, appended to the rows, and its key counted in the summary. */
  method AddLevel<C>(discRows: seq<DiscRow<C>>, summary: map<string, nat>, level: string,
                     detectedMap: map<string, LabelledDetection<C>>, zero: C)
    returns (discRows': seq<DiscRow<C>>, summary': map<string, nat>)
    requires summary == SummaryOf(discRows)
    ensures discRows' == discRows + [RowFor(level, detectedMap, zero)]
    ensures summary' == SummaryOf(discRows')
  {
    var cond, sev, conf;
    if level in detectedMap {
      var det := detectedMap[level].det;
      var cfg := ClassFor(det.clsId);
      cond, sev, conf := cfg.name, cfg.severity, det.conf;
      CountFoundRow(discRows, summary, level, det.clsId, det.conf);
      summary' := summary[cond := Get(summary, cond) + 1];
    } else {
      cond, sev, conf := NotDetected, "unknown", zero;
      CountMissingRow(discRows, summary, level, zero);
      summary' := summary["Not_Detected" := summary["Not_Detected"] + 1];
    }
    discRows' := discRows + [DiscRow(level, cond, conf, sev)];
  }

  /** build_report: walks the five levels in order, appending a row and
      incrementing one summary key per level, then derives the status. */
  method BuildReport<C>(detections: seq<LabelledDetection<C>>, filename: string, zero: C)
    returns (report: Report<C>)
    ensures report == ReportOf(detections, filename, zero)
  {
    var detectedMap := DetectedMap(detections);
    var summary := InitialSummary;
    var discRows: seq<DiscRow<C>> := [];
    assert SummaryOf(discRows) == InitialSummary;
    for j := 0 to |DiscLevels|
      invariant discRows == Rows(DiscLevels[..j], detectedMap, zero)
      invariant summary == SummaryOf(discRows)
    {
      RowsTake(DiscLevels, j, detectedMap, zero);
      discRows, summary := AddLevel(discRows, summary, DiscLevels[j], detectedMap, zero);
    }
    assert DiscLevels[..|DiscLevels|] == DiscLevels;
    report := Report(filename, discRows, summary, OverallStatus(summary));
  }
}

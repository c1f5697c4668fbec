/** The upload endpoint /predict/full: request guards, then inference and the
    report, plus what the report says about the detections it was built from. */
module Api {
  import opened Wrappers
  import opened Http
  import opened Config
  import opened Inference
  import opened Reporting

  /** An uploaded file as the endpoint sees it: its name, its declared content
      type (None when the client sent none), and whether OpenCV decodes its bytes. */
  datatype Upload = Upload(filename: string, contentType: Option<string>, decodes: bool)

  predicate AcceptedContentType(contentType: Option<string>) {
    contentType.Some? && contentType.value in AcceptedContentTypes
  }

  /** Exactly the three image types pass the guard, compared as written; a
      missing content type fails it. */
  lemma AcceptedContentTypeCases(contentType: Option<string>)
    ensures AcceptedContentType(contentType)
            <==> contentType == Some("image/jpeg") || contentType == Some("image/png") || contentType == Some("image/jpg")
    ensures !AcceptedContentType(None)
  {
  }

  /** With labelled detections, a lumbar level is a key of the detection map
      exactly when a detection was labelled with it, and then maps to that one. */
  lemma LabelledDetectionMap<C>(s: seq<Detection<C>>, j: nat)
    requires j < |DiscLevels|
    ensures j < |s| ==> DiscLevels[j] in DetectedMap(LabelLevels(s))
                        && DetectedMap(LabelLevels(s))[DiscLevels[j]] == LabelledDetection(s[j], DiscLevels[j])
    ensures j >= |s| ==> DiscLevels[j] !in DetectedMap(LabelLevels(s))
  {
    var ls := LabelLevels(s);
    if j < |s| {
      forall i | j < i < |ls| ensures ls[i].discLevel != ls[j].discLevel {
        LevelLabelsDistinct(i, j);
      }
      DetectedMapLast(ls, j);
    } else {
      DetectedMapKeys(ls, DiscLevels[j]);
      if DiscLevels[j] in DetectedMap(ls) {
        var i :| 0 <= i < |ls| && ls[i].discLevel == DiscLevels[j];
        LevelLabelsDistinct(i, j);
      }
    }
  }

  /** Rows marked "Not Detected" exactly from position k on are counted k short of the rows. */
  lemma {:induction false} CountNotDetected<C>(rows: seq<DiscRow<C>>, k: nat)
    requires forall i :: 0 <= i < |rows| ==> rows[i].condition in ConditionNames
    requires forall i :: 0 <= i < |rows| ==> (rows[i].condition == NotDetected <==> i >= k)
    ensures CountKey(rows, "Not_Detected") == if |rows| <= k then 0 else |rows| - k
  {
    if rows != [] {
      var prefix := rows[..|rows| - 1];
      assert forall i :: 0 <= i < |prefix| ==> prefix[i] == rows[i];
      CountNotDetected(prefix, k);
    }
  }

  /** The report built from k labelled detections (sorted top to bottom):
      level j < k is filled from the j-th detection and the remaining levels are
      "Not Detected"; so detections from the sixth on never reach the report. */
  lemma LabelledDetectionsReport<C>(s: seq<Detection<C>>, filename: string, zero: C)
    ensures forall j :: 0 <= j < |DiscLevels| && j < |s| ==>
              ReportOf(LabelLevels(s), filename, zero).discs[j]
              == DiscRow(DiscLevels[j], ClassFor(s[j].clsId).name, s[j].conf, ClassFor(s[j].clsId).severity)
    ensures forall j :: |s| <= j < |DiscLevels| ==>
              ReportOf(LabelLevels(s), filename, zero).discs[j] == DiscRow(DiscLevels[j], NotDetected, zero, "unknown")
  {
    var report := ReportOf(LabelLevels(s), filename, zero);
    forall j | 0 <= j < |DiscLevels|
      ensures j < |s| ==>
                report.discs[j] == DiscRow(DiscLevels[j], ClassFor(s[j].clsId).name, s[j].conf, ClassFor(s[j].clsId).severity)
      ensures j >= |s| ==> report.discs[j] == DiscRow(DiscLevels[j], NotDetected, zero, "unknown")
    {
      LabelledDetectionMap(s, j);
    }
  }

  /** With k labelled detections the report counts max(0, 5 - k) levels as Not_Detected. */
  lemma LabelledNotDetectedCount<C>(s: seq<Detection<C>>, filename: string, zero: C)
    ensures Get(ReportOf(LabelLevels(s), filename, zero).summary, "Not_Detected")
            == if |s| >= |DiscLevels| then 0 else |DiscLevels| - |s|
  {
    LabelledDetectionsReport(s, filename, zero);
    RowConditions(DiscLevels, DetectedMap(LabelLevels(s)), zero);
    GetSummary(ReportOf(LabelLevels(s), filename, zero).discs, "Not_Detected");
    CountNotDetected(ReportOf(LabelLevels(s), filename, zero).discs, |s|);
  }

  /** predict_full: reject an unaccepted content type (400), then an
      undecodable image (400), then a missing model (503); otherwise run
      inference on the detector's boxes and build the report. */
  method PredictFull<C(==)>(upload: Upload, modelLoaded: bool, boxes: seq<Box<C>>, zero: C)
    returns (r: Result<Report<C>, HttpError>)
    ensures !AcceptedContentType(upload.contentType) ==> r == Failure(UnsupportedMediaType)
    ensures AcceptedContentType(upload.contentType) && !upload.decodes ==> r == Failure(UnreadableImage)
    ensures AcceptedContentType(upload.contentType) && upload.decodes && !modelLoaded ==> r == Failure(ModelNotLoaded)
    ensures r.Success? <==> AcceptedContentType(upload.contentType) && upload.decodes && modelLoaded
    ensures r.Success? ==> r.value == ReportOf(LabelLevels(SortByCy(Detect(boxes))), upload.filename, zero)
    ensures r.Success? ==> Get(r.value.summary, "Not_Detected")
                           == if |boxes| >= |DiscLevels| then 0 else |DiscLevels| - |boxes|
  {
    if !AcceptedContentType(upload.contentType) {
      return Failure(UnsupportedMediaType);
    }
    if !upload.decodes {
      return Failure(UnreadableImage);
    }
    var detections := RunInference(modelLoaded, boxes);
    if detections.Failure? {
      return Failure(detections.error);
    }
    var report := BuildReport(detections.value, upload.filename, zero);
    ghost var sorted := SortByCy(Detect(boxes));
    assert report == ReportOf(LabelLevels(sorted), upload.filename, zero);
    LabelledNotDetectedCount(sorted, upload.filename, zero);
    assert |sorted| == |boxes|;
    return Success(report);
  }

  /** The boxes of the documented example, listed out of vertical order. */
  function ExampleBoxes<C>(c1: C, c2: C, c3: C, c4: C): seq<Box<C>> {
    [Box(1, c3, 100, 190, 160, 210), Box(2, c1, 100, 40, 160, 61),
     Box(0, c4, 100, 270, 160, 291), Box(0, c2, 100, 110, 160, 130)]
  }

  lemma SortFour<C>(a: Detection<C>, b: Detection<C>, c: Detection<C>, d: Detection<C>)
    requires a.cy < b.cy < c.cy < d.cy
    ensures SortByCy([c, a, d, b]) == [a, b, c, d]
  {
    assert SortByCy([b]) == [b] by {
      assert [b][1..] == [];
      assert Insert(b, []) == [b];
    }
    assert SortByCy([d, b]) == [b, d] by {
      assert [d, b][1..] == [b];
      assert Insert(d, []) == [d];
      assert Insert(d, [b]) == [b] + Insert(d, [b][1..]);
      assert [b][1..] == [];
    }
    assert SortByCy([a, d, b]) == [a, b, d] by {
      assert [a, d, b][1..] == [d, b];
    }
    assert SortByCy([c, a, d, b]) == [a, b, c, d] by {
      assert [c, a, d, b][1..] == [a, d, b];
      assert [a, b, d][1..] == [b, d];
      assert [b, d][1..] == [d];
      assert Insert(c, [d]) == [c, d];
      assert Insert(c, [b, d]) == [b, c, d];
    }
  }

  lemma ExampleSorted<C>(c1: C, c2: C, c3: C, c4: C)
    ensures var b := ExampleBoxes(c1, c2, c3, c4);
            SortByCy(Detect(b)) == [ToDetection(b[1]), ToDetection(b[3]), ToDetection(b[0]), ToDetection(b[2])]
  {
    var b := ExampleBoxes(c1, c2, c3, c4);
    var d3, d1, d4, d2 := ToDetection(b[0]), ToDetection(b[1]), ToDetection(b[2]), ToDetection(b[3]);
    assert Detect(b) == [d3, d1, d4, d2];
    SortFour(d1, d2, d3, d4);
  }

  /** A key's count over five rows, position by position. */
  lemma CountKeyFive<C>(rows: seq<DiscRow<C>>, key: string)
    requires |rows| == 5
    ensures CountKey(rows, key) == (if KeyOf(rows[0].condition) == key then 1 else 0)
                                 + (if KeyOf(rows[1].condition) == key then 1 else 0)
                                 + (if KeyOf(rows[2].condition) == key then 1 else 0)
                                 + (if KeyOf(rows[3].condition) == key then 1 else 0)
                                 + (if KeyOf(rows[4].condition) == key then 1 else 0)
  {
    var f := (i: nat) requires i < 5 => if KeyOf(rows[i].condition) == key then 1 else 0;
    assert rows[..4][..3] == rows[..3] && rows[..4][3] == rows[3];
    assert rows[..3][..2] == rows[..2] && rows[..3][2] == rows[2];
    assert rows[..2][..1] == rows[..1] && rows[..2][1] == rows[1];
    assert rows[..1][..0] == [] && rows[..1][0] == rows[0];
    assert CountKey(rows, key) == CountKey(rows[..4], key) + f(4);
    assert CountKey(rows[..4], key) == CountKey(rows[..3], key) + f(3);
    assert CountKey(rows[..3], key) == CountKey(rows[..2], key) + f(2);
    assert CountKey(rows[..2], key) == CountKey(rows[..1], key) + f(1);
    assert CountKey(rows[..1], key) == f(0);
  }

  lemma ExampleSummary<C>(rows: seq<DiscRow<C>>, c1: C, c2: C, c3: C, c4: C, zero: C)
    requires rows == [DiscRow("L1-L2", "Herniation", c1, "severe"), DiscRow("L2-L3", "Normal", c2, "low"),
                      DiscRow("L3-L4", "Bulging", c3, "moderate"), DiscRow("L4-L5", "Normal", c4, "low"),
                      DiscRow("L5-S1", NotDetected, zero, "unknown")]
    ensures Get(SummaryOf(rows), "Normal") == 2 && Get(SummaryOf(rows), "Bulging") == 1
    ensures Get(SummaryOf(rows), "Herniation") == 1 && Get(SummaryOf(rows), "Not_Detected") == 1
    ensures "Unknown" !in SummaryOf(rows)
  {
    assert KeyOf(rows[0].condition) == "Herniation";
    assert KeyOf(rows[1].condition) == "Normal";
    assert KeyOf(rows[2].condition) == "Bulging";
    assert KeyOf(rows[3].condition) == "Normal";
    assert KeyOf(rows[4].condition) == "Not_Detected";
    CountKeyFive(rows, "Normal");
    CountKeyFive(rows, "Bulging");
    CountKeyFive(rows, "Herniation");
    CountKeyFive(rows, "Not_Detected");
    GetSummary(rows, "Normal");
    GetSummary(rows, "Bulging");
    GetSummary(rows, "Herniation");
    GetSummary(rows, "Not_Detected");
    UnknownKeyIffUnknownRow(rows);
  }

  lemma ExampleRows<C>(s: seq<Detection<C>>, c1: C, c2: C, c3: C, c4: C, zero: C)
    requires |s| == 4
    requires s[0].clsId == 2 && s[0].conf == c1 && s[1].clsId == 0 && s[1].conf == c2
    requires s[2].clsId == 1 && s[2].conf == c3 && s[3].clsId == 0 && s[3].conf == c4
    ensures ReportOf(LabelLevels(s), "mri_scan.jpg", zero).discs
            == [DiscRow("L1-L2", "Herniation", c1, "severe"), DiscRow("L2-L3", "Normal", c2, "low"),
                DiscRow("L3-L4", "Bulging", c3, "moderate"), DiscRow("L4-L5", "Normal", c4, "low"),
                DiscRow("L5-S1", "Not Detected", zero, "unknown")]
  {
    LabelledDetectionsReport(s, "mri_scan.jpg", zero);
  }

  /** The worked example of the endpoint's documentation, with four discs found
      (given out of vertical order) and L5-S1 missing; the summary key for the
      missing level is "Not_Detected", the key the code writes. */
  lemma DocumentedExample<C>(c1: C, c2: C, c3: C, c4: C, zero: C)
    ensures var report := ReportOf(LabelLevels(SortByCy(Detect(ExampleBoxes(c1, c2, c3, c4)))), "mri_scan.jpg", zero);
            && report.discs == [DiscRow("L1-L2", "Herniation", c1, "severe"), DiscRow("L2-L3", "Normal", c2, "low"),
                                DiscRow("L3-L4", "Bulging", c3, "moderate"), DiscRow("L4-L5", "Normal", c4, "low"),
                                DiscRow("L5-S1", "Not Detected", zero, "unknown")]
            && Get(report.summary, "Normal") == 2 && Get(report.summary, "Bulging") == 1
            && Get(report.summary, "Herniation") == 1 && Get(report.summary, "Not_Detected") == 1
            && "Unknown" !in report.summary
            && report.overallStatus == "Critical"
  {
    var b := ExampleBoxes(c1, c2, c3, c4);
    ExampleSorted(c1, c2, c3, c4);
    var sorted := SortByCy(Detect(b));
    var report := ReportOf(LabelLevels(sorted), "mri_scan.jpg", zero);
    ExampleRows(sorted, c1, c2, c3, c4, zero);
    ExampleSummary(report.discs, c1, c2, c3, c4, zero);
    StatusFromWorstFinding(report.discs);
    assert report.discs[0].condition == "Herniation";
  }
}

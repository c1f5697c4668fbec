# Lumbar spine report assembly, modelled in Dafny

This project models the deterministic core of the spinal-damage detection
backend (`Backend/main.py`). An uploaded lumbar MRI passes three request
guards. The detector's boxes are then post-processed: each box gets an integer
vertical centre, the boxes are stably sorted top to bottom, and each position
is labelled with a lumbar disc level. `build_report` turns the labelled
detections into the diagnosis report. The report always has exactly one row for
each of the five levels L1-L2 … L5-S1. It also holds a count of conditions and
an overall triage status taken from the worst finding.

Modules, one per concern of the source file:

- `Wrappers`, `Http` (wrappers.dfy): `Option`, `Result`, and the three HTTP
  errors the backend raises (400, 400, 503), with the source's messages.
- `Decimal` (decimal.dfy): Python's `str()` of a natural number, and its
  inverse. It is needed for the `"Disc-{i+1}"` labels.
- `Config` (config.dfy): `DISC_LEVELS`, the class table `CLASS_CONFIG` with
  its `"Unknown"`/`"unknown"` fallback, the accepted content types, and the
  level label of a sorted position.
- `Inference` (inference.dfy): the post-processing half of `run_inference`.
  It builds the detection records, sorts them by centre (a stable insertion
  sort standing for Python's `sorted`), and labels them. `RunInference` is
  imperative, like the source's two loops.
- `Reporting` (report.dfy): `build_report` as an imperative method,
  `BuildReport`. One pass of its loop over the levels is the method
  `AddLevel`. `BuildReport` is specified by the function `ReportOf`, and the
  lemmas prove what the report promises.
- `Api` (api.dfy): the `/predict/full` endpoint, `PredictFull`. It runs the
  guards in the source's order and then composes inference with the report.
  This module also holds the lemmas about reports built from labelled
  detections, and the documented example of the endpoint, checked against the
  model.

The confidence of a detection is a type parameter `C`. It is only copied,
never inspected. The `0.0` written into a "Not Detected" row is passed in as
the parameter `zero: C`.

The summary key for a missing level is `"Not_Detected"`, as the code writes it
(`Backend/main.py:230`, `245`). The example in the endpoint's docstring
(`Backend/main.py:304`) spells it `"Not Detected"`. The model follows the code.
`DocumentedExample` checks the rest of that docstring example against the
model: the rows, the counts 2/1/1/1 and the status `"Critical"`.

## Model

| member | source | states |
|---|---|---|
| `Config.ClassFor` | Backend/main.py:30-34 | class 0 is Normal/low, 1 is Bulging/moderate, 2 is Herniation/severe, and any other id falls back to Unknown/unknown |
| `Config.LevelLabel` | Backend/main.py:140-141 | position i < 5 gets the i-th lumbar level, so the topmost detection is L1-L2 and the fifth L5-S1; the label is one of the five levels exactly when i < 5; after that it is `"Disc-"` followed by the decimal numeral of i + 1, without leading zeros |
| `Config.LevelLabelsDistinct` | Backend/main.py:140-141 | two different positions never receive the same label |
| `Decimal.NatToString` | Backend/main.py:141 | the rendering of a number is a non-empty string of digits with no leading zero, unless the number is 0 |
| `Decimal.ParseNatToString` | Backend/main.py:141 | reading back a rendered number gives the number |
| `Decimal.NatToStringInjective` | Backend/main.py:141 | different numbers render differently |
| `Inference.DetectRecords` | Backend/main.py:126-136 | `Detect` builds one record per box, in box order, copying class, confidence and corners and setting cy to the floor of (y1 + y2) / 2 |
| `Inference.ToDetection` | Backend/main.py:129-136 | a record copies the box's class, confidence and corners; its centre cy is the floor of (y1 + y2) / 2, also for negative coordinates |
| `Inference.SortByCy` | Backend/main.py:139 | sorting keeps the number of detections |
| `Inference.InsertPermutes` | Backend/main.py:139 | one insertion step adds exactly the inserted detection |
| `Inference.InsertSorted` | Backend/main.py:139 | one insertion step keeps the list ordered by centre |
| `Inference.InsertKeepsTies` | Backend/main.py:139 | an inserted detection goes in front of every detection with an equal centre |
| `Inference.SortByCyPermutes` | Backend/main.py:139 | the sort result holds exactly the input detections, each as often as in the input |
| `Inference.SortByCySorted` | Backend/main.py:139 | the sort result is ordered by non-decreasing centre |
| `Inference.SortByCyTies` | Backend/main.py:139 | for every centre, the detections with that centre appear in the result in their input order |
| `Inference.SortByCyCorrect` | Backend/main.py:139 | the sort result is a permutation of the input, ordered by non-decreasing centre, and detections with equal centres keep their input order |
| `Inference.SortedStableUnique` | Backend/main.py:139 | two lists that are both ordered by centre and agree on the order within each centre are equal, so a stable sort has only one possible result |
| `Inference.SortByCyIsTheStableSort` | Backend/main.py:139 | any ordered, tie-preserving arrangement of the detections equals the model's sort, so the model agrees with Python's `sorted` |
| `Inference.LabelLevelsSpec` | Backend/main.py:140-141 | `LabelLevels` keeps the detections in their order, gives the first five positions L1-L2 … L5-S1 top to bottom, and gives no two positions the same label |
| `Inference.RunInference` | Backend/main.py:104-143 | with no model loaded it fails with 503; otherwise the result has one record per box, is a permutation of the records, is sorted by centre with ties in input order, and position i carries the label of position i |
| `Reporting.DetectedMapKeys` | Backend/main.py:229 | the detection map's keys are exactly the labels of the detections |
| `Reporting.DetectedMapLastWins` | Backend/main.py:229 | `DetectedMap`, the dict comprehension: a label in the dictionary maps to a record carrying it after which no record carries it, so the last one wins |
| `Reporting.DetectedMapLast` | Backend/main.py:229 | a label maps to the last detection that carries it |
| `Reporting.RowForMeaning` | Backend/main.py:234-252 | `RowFor`, the row of one level: it is for that level; it is "Not Detected" with the placeholder confidence exactly when no record has the level, and otherwise takes the record's confidence and the condition name and severity that the class table gives for the record's class id; its severity is "unknown" exactly for a missing level or an unknown class |
| `Reporting.RowConditions` | Backend/main.py:234-244 | each row is for its own level and carries one of the five known conditions; it is "Not Detected" exactly when no detection has that level |
| `Reporting.CountKeyPositive` | Backend/main.py:240-245 | a summary key has a positive count exactly when some row is counted under it |
| `Reporting.SummaryOfCounts` | Backend/main.py:230-245 | `SummaryOf`, the summary dict: every key reads as its number of rows, and a key is present exactly when it is one of the four initial keys or some row is counted under it |
| `Reporting.GetSummary` | Backend/main.py:240 | reading any key of the summary with a default of 0 gives its row count |
| `Reporting.SummaryKeysOf` | Backend/main.py:230-245 | the summary's keys are the four initial keys plus the key of every row, and nothing else |
| `Reporting.SummarySnoc` | Backend/main.py:240-245 | counting one more row increments the key of its condition and leaves every other key as it was |
| `Reporting.ClassNameIsKey` | Backend/main.py:236-240 | a class name from the table, Unknown included, is counted under its own name |
| `Reporting.CountFoundRow` | Backend/main.py:234-240 | counting the row of a detected level is `summary[name] = summary.get(name, 0) + 1` for its class name |
| `Reporting.FixedKeysStay` | Backend/main.py:230 | the four initial keys stay in the summary whatever is counted |
| `Reporting.CountMissingRow` | Backend/main.py:241-245 | for a missing level the "Not_Detected" key is present and counting its row is `summary["Not_Detected"] += 1` |
| `Reporting.CountKeysTotal` | Backend/main.py:230-245 | the counts under Normal, Bulging, Herniation, Not_Detected and Unknown add up to the number of rows |
| `Reporting.KeysOfKnown` | Backend/main.py:230-245 | rows with known conditions are counted only under those five keys |
| `Reporting.SummaryAddsUp` | Backend/main.py:230-245 | the summary always holds the four initial keys and no key beyond the five possible ones, and its values add up to the number of rows |
| `Reporting.UnknownKeyIffUnknownRow` | Backend/main.py:236-240 | the extra `"Unknown"` key appears exactly when some row has a class id outside the table |
| `Reporting.OverallStatusCases` | Backend/main.py:254-260 | `OverallStatus`: Critical exactly when the Herniation count is positive, Attention Required exactly when it is zero and the Bulging count is positive, Normal exactly when both are zero |
| `Reporting.StatusFromWorstFinding` | Backend/main.py:254-260 | the status is Critical exactly when some row is a herniation; Attention Required exactly when none is but some row is bulging; Normal exactly when neither occurs |
| `Reporting.ReportOfProperties` | Backend/main.py:224-269 | `ReportOf`, the report `build_report` returns: it has five rows in the fixed level order; missing levels are Not Detected/unknown with confidence 0.0; detected levels copy the confidence and take name and severity from the class table; the summary counts the rows and adds up to 5; the status follows the worst finding |
| `Reporting.AddLevel` | Backend/main.py:234-252 | one pass of the loop appends the row for its level (from the class table when detected, "Not Detected" otherwise) and keeps the summary equal to the count of the rows so far |
| `Reporting.BuildReport` | Backend/main.py:224-269 | the loop over the five levels produces exactly the report `ReportOf` describes, so everything `ReportOfProperties` proves holds for it |
| `Api.AcceptedContentTypeCases` | Backend/main.py:323 | `AcceptedContentType`: exactly image/jpeg, image/png and image/jpg pass, compared exactly as written (so other spellings and types fail); a missing content type fails |
| `Api.LabelledDetectionMap` | Backend/main.py:229 | for labelled detections, level j is in the detection map exactly when there are more than j detections, and then it maps to the j-th detection from the top |
| `Api.CountNotDetected` | Backend/main.py:241-245 | when exactly the rows from position k on are Not Detected, the Not_Detected count is max(0, rows - k) |
| `Api.LabelledDetectionsReport` | Backend/main.py:233-252 | with k labelled detections, the first min(k, 5) levels come from the first detections in top-to-bottom order and the rest are Not Detected, so detections from the sixth on never appear in the report |
| `Api.LabelledNotDetectedCount` | Backend/main.py:241-245 | with k labelled detections the Not_Detected count is max(0, 5 - k) |
| `Api.PredictFull` | Backend/main.py:286-358 | a content type outside image/jpeg, image/png and image/jpg fails with 400 before anything else; then an undecodable image fails with 400; then a missing model fails with 503; otherwise the result is the report of the sorted, labelled boxes, and its Not_Detected count is max(0, 5 - number of boxes) |
| `Api.DocumentedExample` | Backend/main.py:294-307 | four boxes given out of vertical order produce the documented rows for L1-L2 to L5-S1, the counts Normal 2, Bulging 1, Herniation 1, Not_Detected 1, no Unknown key, and the status Critical |

## Left out

- Loading the YOLO weights and the `model.predict` call (`Backend/main.py:79-87`, `117-123`) belong to a foreign ML library. The model starts from the list of boxes the detector returns, and from a flag saying whether weights were loaded. The confidence threshold and image size passed to the detector are not modelled for the same reason.
- `decode_image` (OpenCV) becomes the `decodes` flag of an upload. `draw_boxes` and `numpy_to_base64` (image drawing, JPEG encoding, base64) are not modelled. So the response's `annotated_image` field is absent.
- Floating point: confidence is an opaque value that is only copied, so `round(float(...), 4)` is not modelled. The `int(...)` truncation of the detector's float coordinates is not modelled either: coordinates and class ids arrive as integers. `processing_time` and its rounding are not modelled.
- The `timestamp` fields come from a clock read (`datetime.utcnow()`) and are not modelled.
- FastAPI app and CORS setup, the `/health` endpoint, the asynchronous file read, the pydantic response validation and `uvicorn.run` are web plumbing and are not modelled. `CLASS_NAMES` is not modelled because the code never reads it.
- Adding the `"disc_level"` key to each detection dict in place is modelled as building a new labelled record per position. Nothing else holds those dicts while the labels are added, so no aliasing is lost.
- Python's `sorted` (Timsort) is modelled by a stable insertion sort. `SortByCyIsTheStableSort` shows that any stable sort by centre gives the same list.
- The browser page that renders the report is not part of this model.
- The order of the summary's keys is not modelled. Python's dict keeps insertion order, so the JSON lists the four fixed keys first and an `"Unknown"` key last (`Backend/main.py:230`, `240`). A Dafny `map` has no order. Nothing in the backend reads that order.

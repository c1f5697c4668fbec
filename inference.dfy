/** Post-processing of the detector's boxes in run_inference: vertical centres,
    a stable top-to-bottom sort, and disc-level labels. */
module Inference {
  import opened Wrappers
  import opened Http
  import opened Config

  /** One box as the detector returns it; the confidence C is only copied. */
  datatype Box<C> = Box(clsId: int, conf: C, x1: int, y1: int, x2: int, y2: int)

  /** A detection record before labelling, with its integer vertical centre. */
  datatype Detection<C> = Detection(clsId: int, conf: C, x1: int, y1: int, x2: int, y2: int, cy: int)

  /** A detection record after the "disc_level" key has been added. */
  datatype LabelledDetection<C> = LabelledDetection(det: Detection<C>, discLevel: string)

  /** The record built for one box; cy is Python's floor division (y1 + y2) // 2,
      which for divisor 2 agrees with Dafny's Euclidean division. */
  function ToDetection<C>(b: Box<C>): (d: Detection<C>)
    ensures d.clsId == b.clsId && d.conf == b.conf
    ensures d.x1 == b.x1 && d.y1 == b.y1 && d.x2 == b.x2 && d.y2 == b.y2
    ensures 2 * d.cy <= b.y1 + b.y2 < 2 * d.cy + 2
  {
    Detection(b.clsId, b.conf, b.x1, b.y1, b.x2, b.y2, (b.y1 + b.y2) / 2)
  }

  function Detect<C>(boxes: seq<Box<C>>): seq<Detection<C>> {
    seq(|boxes|, i requires 0 <= i < |boxes| => ToDetection(boxes[i]))
  }

  /** One record per box, in box order, each with the box's fields and its
      floored vertical centre. */
  lemma DetectRecords<C>(boxes: seq<Box<C>>)
    ensures |Detect(boxes)| == |boxes|
    ensures forall i :: 0 <= i < |boxes| ==>
              var d, b := Detect(boxes)[i], boxes[i];
              d.clsId == b.clsId && d.conf == b.conf && d.x1 == b.x1 && d.y1 == b.y1
              && d.x2 == b.x2 && d.y2 == b.y2 && 2 * d.cy <= b.y1 + b.y2 < 2 * d.cy + 2
  {
  }

  ghost predicate SortedByCy<C>(s: seq<Detection<C>>) {
    forall i, j :: 0 <= i < j < |s| ==> s[i].cy <= s[j].cy
  }

  /** The detections of s whose centre is k, in the order of s. */
  function WithCy<C>(s: seq<Detection<C>>, k: int): seq<Detection<C>> {
    if s == [] then [] else (if s[0].cy == k then [s[0]] else []) + WithCy(s[1..], k)
  }

  /** Stability: for every centre, the detections with that centre keep their order. */
  ghost predicate KeepsTies<C>(input: seq<Detection<C>>, output: seq<Detection<C>>) {
    forall k :: WithCy(output, k) == WithCy(input, k)
  }

  /** Puts x in front of the first element whose centre is not below x's. */
  function Insert<C>(x: Detection<C>, s: seq<Detection<C>>): (r: seq<Detection<C>>)
    ensures |r| == |s| + 1
  {
    if s == [] || x.cy <= s[0].cy then [x] + s else [s[0]] + Insert(x, s[1..])
  }

  lemma {:induction false} InsertPermutes<C>(x: Detection<C>, s: seq<Detection<C>>)
    ensures multiset(Insert(x, s)) == multiset(s) + multiset{x}
  {
    if !(s == [] || x.cy <= s[0].cy) {
      InsertPermutes(x, s[1..]);
      assert s == [s[0]] + s[1..];
    }
  }

  lemma {:induction false} InsertSorted<C>(x: Detection<C>, s: seq<Detection<C>>)
    requires SortedByCy(s)
    ensures SortedByCy(Insert(x, s))
    ensures Insert(x, s) != [] && Insert(x, s)[0].cy == (if s == [] || x.cy <= s[0].cy then x.cy else s[0].cy)
  {
    if !(s == [] || x.cy <= s[0].cy) {
      InsertSorted(x, s[1..]);
    }
  }

  lemma {:induction false} InsertKeepsTies<C>(x: Detection<C>, s: seq<Detection<C>>, k: int)
    ensures WithCy(Insert(x, s), k) == (if x.cy == k then [x] else []) + WithCy(s, k)
  {
    var r := Insert(x, s);
    if s == [] || x.cy <= s[0].cy {
      assert r[1..] == s;
    } else {
      InsertKeepsTies(x, s[1..], k);
      assert r[1..] == Insert(x, s[1..]);
      assert WithCy(s, k) == (if s[0].cy == k then [s[0]] else []) + WithCy(s[1..], k);
    }
  }

  /** Python's sorted(detections, key=cy): a stable sort, here by insertion. */
  function SortByCy<C>(s: seq<Detection<C>>): (r: seq<Detection<C>>)
    ensures |r| == |s|
  {
    if s == [] then [] else Insert(s[0], SortByCy(s[1..]))
  }

  lemma {:induction false} SortByCyPermutes<C>(s: seq<Detection<C>>)
    ensures multiset(SortByCy(s)) == multiset(s)
  {
    if s != [] {
      SortByCyPermutes(s[1..]);
      InsertPermutes(s[0], SortByCy(s[1..]));
      assert s == [s[0]] + s[1..];
    }
  }

  lemma {:induction false} SortByCySorted<C>(s: seq<Detection<C>>)
    ensures SortedByCy(SortByCy(s))
  {
    if s != [] {
      SortByCySorted(s[1..]);
      InsertSorted(s[0], SortByCy(s[1..]));
    }
  }

  lemma {:induction false} SortByCyTies<C>(s: seq<Detection<C>>, k: int)
    ensures WithCy(SortByCy(s), k) == WithCy(s, k)
  {
    if s != [] {
      SortByCyTies(s[1..], k);
      InsertKeepsTies(s[0], SortByCy(s[1..]), k);
    }
  }

  /** The sort rearranges its input, orders it by centre, and keeps ties in input order. */
  lemma SortByCyCorrect<C>(s: seq<Detection<C>>)
    ensures multiset(SortByCy(s)) == multiset(s)
    ensures SortedByCy(SortByCy(s))
    ensures KeepsTies(s, SortByCy(s))
  {
    SortByCyPermutes(s);
    SortByCySorted(s);
    forall k
      ensures WithCy(SortByCy(s), k) == WithCy(s, k)
    {
      SortByCyTies(s, k);
    }
  }

  lemma {:induction false} WithCyWitness<C>(s: seq<Detection<C>>, k: int)
    requires WithCy(s, k) != []
    ensures exists i :: 0 <= i < |s| && s[i].cy == k
  {
    if s[0].cy != k {
      WithCyWitness(s[1..], k);
      var i :| 0 <= i < |s[1..]| && s[1..][i].cy == k;
      assert s[i + 1].cy == k;
    }
  }

  /** Sortedness by centre and stability determine the order completely. */
  lemma {:induction false} SortedStableUnique<C>(a: seq<Detection<C>>, b: seq<Detection<C>>)
    requires SortedByCy(a) && SortedByCy(b)
    requires forall k :: WithCy(a, k) == WithCy(b, k)
    ensures a == b
  {
    if a != [] {
      assert WithCy(b, a[0].cy) != [];
      WithCyWitness(b, a[0].cy);
      assert b != [];
      assert WithCy(a, b[0].cy) != [];
      WithCyWitness(a, b[0].cy);
      assert a[0].cy == b[0].cy;
      assert a[0] == WithCy(a, a[0].cy)[0] == WithCy(b, a[0].cy)[0] == b[0];
      forall k
        ensures WithCy(a[1..], k) == WithCy(b[1..], k)
      {
        assert WithCy(a, k) == WithCy(b, k);
        var ha: seq<Detection<C>> := if a[0].cy == k then [a[0]] else [];
        var hb: seq<Detection<C>> := if b[0].cy == k then [b[0]] else [];
        assert ha == hb;
        assert WithCy(a, k) == ha + WithCy(a[1..], k);
        assert WithCy(b, k) == hb + WithCy(b[1..], k);
        assert WithCy(a[1..], k) == WithCy(a, k)[|ha|..];
        assert WithCy(b[1..], k) == WithCy(b, k)[|hb|..];
      }
      SortedStableUnique(a[1..], b[1..]);
      assert a == [a[0]] + a[1..] && b == [b[0]] + b[1..];
    }
  }

  /** Any sorted, stable rearrangement of s is SortByCy(s). */
  lemma SortByCyIsTheStableSort<C>(s: seq<Detection<C>>, r: seq<Detection<C>>)
    requires SortedByCy(r) && KeepsTies(s, r)
    ensures r == SortByCy(s)
  {
    SortByCyCorrect(s);
    SortedStableUnique(r, SortByCy(s));
  }

  /** Attaches LevelLabel(i) to the detection at position i. */
  function LabelLevels<C>(s: seq<Detection<C>>): seq<LabelledDetection<C>> {
    seq(|s|, i requires 0 <= i < |s| => LabelledDetection(s[i], LevelLabel(i)))
  }

  function Unlabel<C>(ls: seq<LabelledDetection<C>>): seq<Detection<C>> {
    seq(|ls|, i requires 0 <= i < |ls| => ls[i].det)
  }

  /** Labelling keeps the detections and their order, gives the first five
      positions the lumbar levels top to bottom, and gives every position a
      label of its own. */
  lemma LabelLevelsSpec<C>(s: seq<Detection<C>>)
    ensures Unlabel(LabelLevels(s)) == s
    ensures forall i :: 0 <= i < |s| && i < |DiscLevels| ==> LabelLevels(s)[i].discLevel == DiscLevels[i]
    ensures forall i, j :: 0 <= i < j < |s| ==> LabelLevels(s)[i].discLevel != LabelLevels(s)[j].discLevel
  {
    forall i, j | 0 <= i < j < |s|
      ensures LabelLevels(s)[i].discLevel != LabelLevels(s)[j].discLevel
    {
      LevelLabelsDistinct(i, j);
    }
  }

  /** run_inference after the model call: fail with 503 when no model is loaded,
      otherwise build one record per box, sort them top to bottom and label them. */
  method RunInference<C(==)>(modelLoaded: bool, boxes: seq<Box<C>>)
    returns (r: Result<seq<LabelledDetection<C>>, HttpError>)
    ensures !modelLoaded ==> r == Failure(ModelNotLoaded)
    ensures modelLoaded ==> r == Success(LabelLevels(SortByCy(Detect(boxes))))
    ensures modelLoaded ==> |r.value| == |boxes|
    ensures modelLoaded ==> multiset(Unlabel(r.value)) == multiset(Detect(boxes))
    ensures modelLoaded ==> SortedByCy(Unlabel(r.value)) && KeepsTies(Detect(boxes), Unlabel(r.value))
    ensures modelLoaded ==> forall i :: 0 <= i < |r.value| ==> r.value[i].discLevel == LevelLabel(i)
  {
    if !modelLoaded {
      return Failure(ModelNotLoaded);
    }
    var detections: seq<Detection<C>> := [];
    for i := 0 to |boxes|
      invariant |detections| == i
      invariant forall j :: 0 <= j < i ==> detections[j] == ToDetection(boxes[j])
    {
      detections := detections + [ToDetection(boxes[i])];
    }
    assert detections == Detect(boxes);
    var sorted := SortByCy(detections);
    SortByCyCorrect(detections);
    var labelled: seq<LabelledDetection<C>> := [];
    for i := 0 to |sorted|
      invariant |labelled| == i
      invariant forall j :: 0 <= j < i ==> labelled[j] == LabelledDetection(sorted[j], LevelLabel(j))
    {
      labelled := labelled + [LabelledDetection(sorted[i], LevelLabel(i))];
    }
    assert labelled == LabelLevels(sorted);
    assert Unlabel(labelled) == sorted;
    r := Success(labelled);
  }
}

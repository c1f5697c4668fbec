/** The backend's fixed tables: lumbar levels, the class table, accepted uploads. */
module Config {
  import opened Wrappers
  import opened Decimal

  /** The five lumbar disc levels, top to bottom. */
  const DiscLevels: seq<string> := ["L1-L2", "L2-L3", "L3-L4", "L4-L5", "L5-S1"]

  /** The part of a class-table entry the report uses (colour and emoji only draw). */
  datatype ClassInfo = ClassInfo(name: string, severity: string)

  const ClassConfig: map<int, ClassInfo> := map[
    0 := ClassInfo("Normal", "low"),
    1 := ClassInfo("Bulging", "moderate"),
    2 := ClassInfo("Herniation", "severe")
  ]

  /** The entry used for a class id the table does not know. */
  const UnknownClass := ClassInfo("Unknown", "unknown")

  /** The content types the upload endpoint accepts. */
  const AcceptedContentTypes: seq<string> := ["image/jpeg", "image/png", "image/jpg"]

  /** Class-table lookup with the "Unknown"/"unknown" fallback. */
  function ClassFor(clsId: int): (c: ClassInfo)
    ensures clsId == 0 ==> c == ClassInfo("Normal", "low")
    ensures clsId == 1 ==> c == ClassInfo("Bulging", "moderate")
    ensures clsId == 2 ==> c == ClassInfo("Herniation", "severe")
    ensures !(0 <= clsId <= 2) ==> c == ClassInfo("Unknown", "unknown")
  {
    if clsId in ClassConfig then ClassConfig[clsId] else UnknownClass
  }

  /** The label of the detection at sorted position i: a lumbar level for the
      first five, "Disc-<i+1>" after that. */
  function LevelLabel(i: nat): (l: string)
    ensures i < |DiscLevels| ==> l == DiscLevels[i]
    ensures l in DiscLevels <==> i < |DiscLevels|
    ensures i >= |DiscLevels| ==> |l| > 5 && l[..5] == "Disc-" && AllDigits(l[5..]) && ParseDecimal(l[5..]) == i + 1
    ensures i >= |DiscLevels| ==> l[5..] == NatToString(i + 1)
  {
    if i < |DiscLevels| then DiscLevels[i]
    else
      var l := "Disc-" + NatToString(i + 1);
      assert l[5..] == NatToString(i + 1);
      ParseNatToString(i + 1);
      assert l[0] == 'D' && forall m :: 0 <= m < |DiscLevels| ==> DiscLevels[m][0] == 'L';
      l
  }

  /** No two positions receive the same label. */
  lemma LevelLabelsDistinct(i: nat, j: nat)
    requires i != j
    ensures LevelLabel(i) != LevelLabel(j)
  {
    var n := |DiscLevels|;
    if i < n && j < n {
      assert forall m :: 0 <= m < n ==> DiscLevels[m][1] == ('1' as int + m) as char;
      assert LevelLabel(i)[1] != LevelLabel(j)[1];
    }
  }
}

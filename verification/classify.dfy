/** Blood-pressure classification against the home-measurement column of the
    adult classification table in chapter 2 of the Japanese Society of
    Hypertension guidelines (JSH2019), and the display tag of each tier. */
module Classify {

  /** The six tiers, least severe first. The names follow the display tags
      (`bp-elevated` for 正常高値血圧, `bp-high-normal` for 高値血圧), which
      is the reverse of the guideline's English terms: it calls 正常高値血圧
      high-normal and 高値血圧 elevated. */
  datatype Tier = Normal | ElevatedNormal | HighNormal | Grade1 | Grade2 | Grade3

  /** Position of a tier in the severity order. */
  function Severity(t: Tier): nat {
    match t
    case Normal => 0
    case ElevatedNormal => 1
    case HighNormal => 2
    case Grade1 => 3
    case Grade2 => 4
    case Grade3 => 5
  }

  /** The guideline table read row by row: a reading falls into tier `t` or
      above when either pressure reaches that row's threshold. The
      elevated-normal row has no diastolic threshold. */
  predicate Reaches(t: Tier, systolic: int, diastolic: int) {
    match t
    case Normal => true
    case ElevatedNormal => systolic >= 115
    case HighNormal => systolic >= 125 || diastolic >= 75
    case Grade1 => systolic >= 135 || diastolic >= 85
    case Grade2 => systolic >= 145 || diastolic >= 90
    case Grade3 => systolic >= 160 || diastolic >= 100
  }

  /** `classifyBP`: checks the rows from the most severe down and returns the
      first one that matches. The result is the most severe tier the reading
      reaches. */
  function ClassifyBP(systolic: int, diastolic: int): (r: Tier)
    ensures Reaches(r, systolic, diastolic)
    ensures forall t: Tier :: Severity(t) > Severity(r) ==> !Reaches(t, systolic, diastolic)
  {
    if systolic >= 160 || diastolic >= 100 then Grade3
    else if systolic >= 145 || diastolic >= 90 then Grade2
    else if systolic >= 135 || diastolic >= 85 then Grade1
    else if systolic >= 125 || diastolic >= 75 then HighNormal
    else if systolic >= 115 then ElevatedNormal
    else Normal
  }

  /** A higher systolic reading never gives a milder tier. */
  lemma MonotoneInSystolic(systolic: int, systolic': int, diastolic: int)
    requires systolic <= systolic'
    ensures Severity(ClassifyBP(systolic, diastolic)) <= Severity(ClassifyBP(systolic', diastolic))
  {
    var t := ClassifyBP(systolic, diastolic);
    assert Reaches(t, systolic', diastolic);
  }

  /** A higher diastolic reading never gives a milder tier. */
  lemma MonotoneInDiastolic(systolic: int, diastolic: int, diastolic': int)
    requires diastolic <= diastolic'
    ensures Severity(ClassifyBP(systolic, diastolic)) <= Severity(ClassifyBP(systolic, diastolic'))
  {
    var t := ClassifyBP(systolic, diastolic);
    assert Reaches(t, systolic, diastolic');
  }

  /** The label `classifyBP` returns for each tier. */
  function Label(t: Tier): string {
    match t
    case Normal => "正常血圧"
    case ElevatedNormal => "正常高値血圧"
    case HighNormal => "高値血圧"
    case Grade1 => "I度高血圧"
    case Grade2 => "II度高血圧"
    case Grade3 => "III度高血圧"
  }

  /** The CSS tag the record list shows for each tier. */
  function Tag(t: Tier): string {
    match t
    case Normal => "bp-normal"
    case ElevatedNormal => "bp-elevated"
    case HighNormal => "bp-high-normal"
    case Grade1 => "bp-grade1"
    case Grade2 => "bp-grade2"
    case Grade3 => "bp-grade3"
  }

  /** `classifyBPClass`: the tag of the tier a label names, and the normal tag
      for any string that is not one of the six labels. */
  function ClassifyBPClass(name: string): (r: string)
    ensures forall t: Tier :: name == Label(t) ==> r == Tag(t)
    ensures (forall t: Tier :: name != Label(t)) ==> r == "bp-normal"
  {
    assert Label(Normal) == "正常血圧" && Label(ElevatedNormal) == "正常高値血圧";
    assert Label(HighNormal) == "高値血圧" && Label(Grade1) == "I度高血圧";
    assert Label(Grade2) == "II度高血圧" && Label(Grade3) == "III度高血圧";
    if name == "正常血圧" then "bp-normal"
    else if name == "正常高値血圧" then "bp-elevated"
    else if name == "高値血圧" then "bp-high-normal"
    else if name == "I度高血圧" then "bp-grade1"
    else if name == "II度高血圧" then "bp-grade2"
    else if name == "III度高血圧" then "bp-grade3"
    else "bp-normal"
  }

  /** Distinct tiers have distinct labels and distinct tags, so the label-to-tag
      mapping is one-to-one on the six labels. */
  lemma LabelsAndTagsOneToOne(t: Tier, u: Tier)
    requires t != u
    ensures Label(t) != Label(u)
    ensures Tag(t) != Tag(u)
    ensures ClassifyBPClass(Label(t)) != ClassifyBPClass(Label(u))
  {
  }

  /** The concrete readings of the unit tests, including the boundaries. */
  lemma ClassifyExamples()
    ensures ClassifyBP(110, 70) == Normal
    ensures ClassifyBP(120, 70) == ElevatedNormal
    ensures ClassifyBP(130, 70) == HighNormal
    ensures ClassifyBP(110, 80) == HighNormal
    ensures ClassifyBP(140, 85) == Grade1
    ensures ClassifyBP(150, 95) == Grade2
    ensures ClassifyBP(165, 105) == Grade3
    ensures ClassifyBP(115, 70) == ElevatedNormal
    ensures ClassifyBP(114, 74) == Normal
    ensures ClassifyBP(110, 75) == HighNormal
    ensures ClassifyBP(135, 70) == Grade1
    ensures ClassifyBP(160, 70) == Grade3
    ensures ClassifyBP(145, 70) == Grade2 && ClassifyBP(120, 90) == Grade2
    ensures ClassifyBPClass(Label(Normal)) == "bp-normal"
    ensures ClassifyBPClass(Label(Grade3)) == "bp-grade3"
    ensures ClassifyBPClass("不明") == "bp-normal"
  {
  }
}

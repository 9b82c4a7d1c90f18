/** The health risk assessment page: an additive score over a fixed
    questionnaire, then a three-way risk level. */
module RiskAssessment {

  /** The questionnaire answers that enter the score. */
  datatype Answers = Answers(
    age: int,
    smoker: string,              // "Yes" or "No"
    physicalActivity: int,       // days per week, 0..7
    bmi: real,
    familyHistory: bool,
    sleepQuality: int,           // 1 = poor .. 10 = excellent
    stressLevel: int,            // 1 = low .. 10 = high
    existingConditions: seq<string>)

  datatype RiskLevel = Low | Moderate | High

  /** One point when the rule fires. */
  function Point(fires: bool): nat {
    if fires then 1 else 0
  }

  /** The existing conditions that weigh extra; each weighs the same two points,
      once, however many of them are selected. */
  predicate HasChronicCondition(a: Answers) {
    "Diabetes" in a.existingConditions || "Hypertension" in a.existingConditions
  }

  /** The number of the seven one-point rules that fire. */
  function LifestylePoints(a: Answers): (r: nat)
    ensures r <= 7
  {
    Point(a.age > 45)
    + Point(a.smoker == "Yes")
    + Point(a.physicalActivity < 3)
    + Point(a.bmi >= 25.0)
    + Point(a.familyHistory)
    + Point(a.sleepQuality < 5)
    + Point(a.stressLevel > 7)
  }

  /** The risk score: seven one-point rules plus two points for a chronic
      condition. It lies in 0..9, and it is at least 2 exactly when a chronic
      condition is selected or at least two rules fire. */
  function RiskScore(a: Answers): (r: nat)
    ensures r <= 9
    ensures r >= 2 <==> HasChronicCondition(a) || LifestylePoints(a) >= 2
    ensures HasChronicCondition(a) ==> r >= 2
    ensures !HasChronicCondition(a) ==> r <= 7
  {
    LifestylePoints(a) + (if HasChronicCondition(a) then 2 else 0)
  }

  /** The three-way bucket shown after submission. */
  function Level(score: int): (r: RiskLevel)
    ensures r == Low <==> score <= 3
    ensures r == Moderate <==> 4 <= score <= 6
    ensures r == High <==> score >= 7
  {
    if score <= 3 then Low
    else if 4 <= score <= 6 then Moderate
    else High
  }

  /** `b` is at least as risky as `a` on every factor taken separately. */
  predicate AtLeastAsRisky(b: Answers, a: Answers) {
    && b.age >= a.age
    && (a.smoker == "Yes" ==> b.smoker == "Yes")
    && b.physicalActivity <= a.physicalActivity
    && b.bmi >= a.bmi
    && (a.familyHistory ==> b.familyHistory)
    && b.sleepQuality <= a.sleepQuality
    && b.stressLevel >= a.stressLevel
    && (HasChronicCondition(a) ==> HasChronicCondition(b))
  }

  /** The score never drops when any factor moves towards more risk: it is
      non-decreasing in age, BMI, stress, smoking and family history and
      non-increasing in physical activity and sleep quality. */
  lemma ScoreMonotone(a: Answers, b: Answers)
    requires AtLeastAsRisky(b, a)
    ensures RiskScore(a) <= RiskScore(b)
    ensures Level(RiskScore(a)) == High ==> Level(RiskScore(b)) == High
  {
  }

  /** The numeric rule boundaries: age 45, activity 3, sleep 5 and stress 7 add
      nothing, while age 46, activity 2, BMI 25, sleep 4 and stress 8 add one
      point each over the neighbouring value. */
  lemma RuleBoundaries(a: Answers)
    ensures RiskScore(a.(age := 46)) == RiskScore(a.(age := 45)) + 1
    ensures RiskScore(a.(physicalActivity := 2)) == RiskScore(a.(physicalActivity := 3)) + 1
    ensures RiskScore(a.(bmi := 25.0)) == RiskScore(a.(bmi := 24.99)) + 1
    ensures RiskScore(a.(sleepQuality := 4)) == RiskScore(a.(sleepQuality := 5)) + 1
    ensures RiskScore(a.(stressLevel := 8)) == RiskScore(a.(stressLevel := 7)) + 1
  {
  }

  /** Every BMI below 25 scores one point less than BMI 25. */
  lemma BmiBelowThreshold(a: Answers, x: real)
    requires x < 25.0
    ensures RiskScore(a.(bmi := x)) + 1 == RiskScore(a.(bmi := 25.0))
  {
  }

  /** Answering "Yes" to smoking, or ticking family history, adds one point. */
  lemma FlagRules(a: Answers)
    ensures RiskScore(a.(smoker := "Yes")) == RiskScore(a.(smoker := "No")) + 1
    ensures RiskScore(a.(familyHistory := true)) == RiskScore(a.(familyHistory := false)) + 1
  {
  }

  /** Diabetes and Hypertension together add two points, not four; Heart
      Disease, Asthma and None add nothing. */
  lemma ChronicBonusOnce(a: Answers)
    ensures RiskScore(a.(existingConditions := ["Diabetes", "Hypertension"]))
         == RiskScore(a.(existingConditions := ["Diabetes"]))
         == RiskScore(a.(existingConditions := ["Hypertension"]))
         == RiskScore(a.(existingConditions := [])) + 2
    ensures RiskScore(a.(existingConditions := ["Heart Disease", "Asthma", "None"]))
         == RiskScore(a.(existingConditions := []))
  {
  }

  /** Age 50, a smoker, active two days a week, BMI 27, family history, sleep
      quality 4, stress 8 and no conditions scores 7: High risk. */
  lemma WorkedExample()
    ensures RiskScore(Answers(50, "Yes", 2, 27.0, true, 4, 8, [])) == 7
    ensures Level(RiskScore(Answers(50, "Yes", 2, 27.0, true, 4, 8, []))) == High
  {
  }
}

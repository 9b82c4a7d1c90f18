/** What the diagnosis page derives once the walk reaches a leaf: the predicted
    disease (the first class with nonzero weight at the leaf), the confidence
    ratio, and the doctor referral looked up by disease name. */
module Diagnosis {
  import opened Wrappers
  import opened DecisionTree

  /** The exceptions the leaf step can raise. */
  datatype Fault =
    | NoOutput          // the leaf's value array has no output row
    | NoNonzeroClass    // no class has nonzero weight, so the decoded label list is empty
    | UnseenClass       // a nonzero class index has no label
    | NoReferral        // no doctor row carries the predicted disease

  /** The index of the first nonzero weight, if any. */
  function FirstNonzero(v: seq<real>): (r: Option<nat>)
    ensures r.Some? ==> r.value < |v| && v[r.value] != 0.0
    ensures r.Some? ==> forall j :: 0 <= j < r.value ==> v[j] == 0.0
    ensures r.None? <==> forall j :: 0 <= j < |v| ==> v[j] == 0.0
  {
    if |v| == 0 then None
    else if v[0] != 0.0 then Some(0)
    else
      match FirstNonzero(v[1..])
      case None => None
      case Some(i) => Some(i + 1)
  }

  /** Every class index with nonzero weight has a label. */
  predicate AllNonzeroLabelled(v: seq<real>, classes: seq<string>) {
    forall j :: 0 <= j < |v| && v[j] != 0.0 ==> j < |classes|
  }

  /** `print_disease` followed by taking the first label: decode the labels of
      all nonzero classes of the first output and keep the first. Decoding
      fails when some nonzero class has no label. */
  function LeafLabel(value: seq<seq<real>>, classes: seq<string>): (r: Result<string, Fault>)
    ensures |value| == 0 <==> r == Failure(NoOutput)
    ensures |value| > 0 && !AllNonzeroLabelled(value[0], classes) ==> r == Failure(UnseenClass)
    ensures (&& |value| > 0 && AllNonzeroLabelled(value[0], classes)
             && forall j :: 0 <= j < |value[0]| ==> value[0][j] == 0.0)
            ==> r == Failure(NoNonzeroClass)
    ensures r.Success? <==>
      && |value| > 0
      && (exists i :: 0 <= i < |value[0]| && value[0][i] != 0.0)
      && AllNonzeroLabelled(value[0], classes)
    ensures r.Success? ==> exists i ::
      && 0 <= i < |value[0]| && i < |classes| && r.value == classes[i]
      && value[0][i] != 0.0 && (forall j :: 0 <= j < i ==> value[0][j] == 0.0)
  {
    if |value| == 0 then Failure(NoOutput)
    else
      var counts := value[0];
      if !AllNonzeroLabelled(counts, classes) then Failure(UnseenClass)
      else
        match FirstNonzero(counts)
        case None => Failure(NoNonzeroClass)
        case Some(i) => Success(classes[i])
  }

  /** The confidence ratio: recorded symptoms over the symptoms associated with
      the predicted disease, or 0 when there are none. It is never negative,
      and times the denominator it gives back the number of recorded symptoms;
      it is not bounded by 1. */
  function Confidence(presentCount: nat, givenCount: nat): (r: real)
    ensures r >= 0.0
    ensures givenCount == 0 ==> r == 0.0
    ensures givenCount > 0 ==> r * givenCount as real == presentCount as real
  {
    if givenCount > 0 then presentCount as real / givenCount as real else 0.0
  }

  /** Nothing caps the ratio at 1: two recorded symptoms against one associated
      symptom give a confidence of 2. */
  lemma ConfidenceCanExceedOne()
    ensures Confidence(2, 1) == 2.0
  {
  }

  /** One row of the doctors' file. */
  datatype Doctor = Doctor(name: string, link: string)

  /** One row of the referral table; a missing cell (NaN) is `None`. */
  datatype DoctorRow = DoctorRow(name: Option<string>, link: Option<string>, disease: Option<string>)

  /** The referral table: the i-th doctor row paired with the i-th disease of
      the grouped training data, over as many rows as the longer of the two,
      with missing cells where the shorter one runs out. */
  function DoctorTable(doctors: seq<Doctor>, diseases: seq<string>): (r: seq<DoctorRow>)
    ensures |r| == if |doctors| < |diseases| then |diseases| else |doctors|
    ensures forall i :: 0 <= i < |r| ==>
      && r[i].disease == (if i < |diseases| then Some(diseases[i]) else None)
      && r[i].name == (if i < |doctors| then Some(doctors[i].name) else None)
      && r[i].link == (if i < |doctors| then Some(doctors[i].link) else None)
  {
    var n := if |doctors| < |diseases| then |diseases| else |doctors|;
    seq(n, i requires 0 <= i < n =>
      DoctorRow(
        if i < |doctors| then Some(doctors[i].name) else None,
        if i < |doctors| then Some(doctors[i].link) else None,
        if i < |diseases| then Some(diseases[i]) else None))
  }

  /** The referral for `disease`: the first row whose disease is `disease`. */
  function Referral(rows: seq<DoctorRow>, disease: string): (r: Result<DoctorRow, Fault>)
    ensures r.Failure? <==> forall i :: 0 <= i < |rows| ==> rows[i].disease != Some(disease)
    ensures r.Failure? ==> r.error == NoReferral
    ensures r.Success? ==> exists i ::
      && 0 <= i < |rows| && rows[i] == r.value && rows[i].disease == Some(disease)
      && forall j :: 0 <= j < i ==> rows[j].disease != Some(disease)
  {
    if |rows| == 0 then Failure(NoReferral)
    else if rows[0].disease == Some(disease) then Success(rows[0])
    else
      var r := Referral(rows[1..], disease);
      assert forall j :: 1 <= j < |rows| ==> rows[j] == rows[1..][j - 1];
      r
  }

  /** When `disease` first occurs as the i-th grouped disease, the referral is
      the i-th doctor (or empty cells when the doctors' file is shorter). */
  lemma {:induction false} ReferralIsPositional(doctors: seq<Doctor>, diseases: seq<string>, disease: string, i: nat)
    requires i < |diseases| && diseases[i] == disease
    requires forall j :: 0 <= j < i ==> diseases[j] != disease
    ensures Referral(DoctorTable(doctors, diseases), disease)
      == Success(DoctorRow(
           if i < |doctors| then Some(doctors[i].name) else None,
           if i < |doctors| then Some(doctors[i].link) else None,
           Some(disease)))
  {
  }

  /** A disease missing from the grouped diseases has no referral. */
  lemma NoReferralForUnknownDisease(doctors: seq<Doctor>, diseases: seq<string>, disease: string)
    requires disease !in diseases
    ensures Referral(DoctorTable(doctors, diseases), disease) == Failure(NoReferral)
  {
  }

  /** What the page shows at the end of a walk. */
  datatype Report = Report(
    questions: seq<string>,
    disease: string,
    present: seq<string>,
    confidence: real,
    doctorName: Option<string>,
    doctorLink: Option<string>)

  /** The whole diagnosis session: walk from the root, label the leaf, compute
      the confidence against the symptoms associated with the disease, and look
      up the referral. `symptomsGiven` stands for the training-data lookup of
      the symptoms associated with a disease. */
  function Diagnose(t: SkTree, names: seq<string>, classes: seq<string>,
                    symptomsGiven: string -> seq<string>,
                    doctors: seq<Doctor>, diseases: seq<string>,
                    answer: string -> string): (r: Result<Report, Fault>)
    requires WellFormed(t, |names|)
    ensures var w := WalkFromRoot(t, names, answer);
      r.Success? <==>
        && LeafLabel(t.value[w.leaf], classes).Success?
        && Referral(DoctorTable(doctors, diseases), LeafLabel(t.value[w.leaf], classes).value).Success?
    ensures var w := WalkFromRoot(t, names, answer);
      r.Success? ==>
        && r.value.questions == Questions(t, names, w.path)
        && r.value.present == RightTurnNames(t, names, answer, w.path)
        && r.value.disease == LeafLabel(t.value[w.leaf], classes).value
        && r.value.confidence >= 0.0
        && (|symptomsGiven(r.value.disease)| == 0 ==> r.value.confidence == 0.0)
        && r.value.confidence == Confidence(|r.value.present|, |symptomsGiven(r.value.disease)|)
        && r.value.disease in diseases
    ensures r.Success? ==>
      var ref := Referral(DoctorTable(doctors, diseases), r.value.disease);
      && ref.Success?
      && r.value.doctorName == ref.value.name
      && r.value.doctorLink == ref.value.link
    ensures var w := WalkFromRoot(t, names, answer);
      r.Failure? ==>
        r.error == (if LeafLabel(t.value[w.leaf], classes).Failure?
                    then LeafLabel(t.value[w.leaf], classes).error
                    else NoReferral)
  {
    var w := WalkFromRoot(t, names, answer);
    var decoded := LeafLabel(t.value[w.leaf], classes);
    if decoded.Failure? then Failure(decoded.error)
    else
      var disease := decoded.value;
      var given := symptomsGiven(disease);
      var confidence := Confidence(|w.present|, |given|);
      var referral := Referral(DoctorTable(doctors, diseases), disease);
      if referral.Failure? then Failure(referral.error)
      else
        ReferredDiseaseListed(doctors, diseases, disease);
        Success(Report(Questions(t, names, w.path), disease, w.present, confidence,
                       referral.value.name, referral.value.link))
  }

  /** The page builds the grouped diseases and the label encoder's classes from
      the same label column, so the two lists are the same distinct labels.
      With one list for both, every labelled leaf has a referral, and it is the
      doctor at the label's class index (empty cells past the doctors' file). */
  lemma {:induction false} ReferralAlwaysFound(t: SkTree, names: seq<string>, classes: seq<string>,
                                               symptomsGiven: string -> seq<string>,
                                               doctors: seq<Doctor>, answer: string -> string)
    requires WellFormed(t, |names|)
    requires forall i, j :: 0 <= i < j < |classes| ==> classes[i] != classes[j]
    ensures var w := WalkFromRoot(t, names, answer);
      var r := Diagnose(t, names, classes, symptomsGiven, doctors, classes, answer);
      r.Success? <==> LeafLabel(t.value[w.leaf], classes).Success?
    ensures var w := WalkFromRoot(t, names, answer);
      var r := Diagnose(t, names, classes, symptomsGiven, doctors, classes, answer);
      r.Success? ==> exists i ::
        && 0 <= i < |classes| && i < |t.value[w.leaf][0]|
        && t.value[w.leaf][0][i] != 0.0
        && (forall j :: 0 <= j < i ==> t.value[w.leaf][0][j] == 0.0)
        && r.value.disease == classes[i]
        && r.value.doctorName == (if i < |doctors| then Some(doctors[i].name) else None)
        && r.value.doctorLink == (if i < |doctors| then Some(doctors[i].link) else None)
  {
    var w := WalkFromRoot(t, names, answer);
    var decoded := LeafLabel(t.value[w.leaf], classes);
    if decoded.Success? {
      var i :| && 0 <= i < |t.value[w.leaf][0]| && i < |classes| && decoded.value == classes[i]
               && t.value[w.leaf][0][i] != 0.0 && (forall j :: 0 <= j < i ==> t.value[w.leaf][0][j] == 0.0);
      ReferralIsPositional(doctors, classes, classes[i], i);
    }
  }

  /** A disease with a referral is one of the grouped diseases. */
  lemma ReferredDiseaseListed(doctors: seq<Doctor>, diseases: seq<string>, disease: string)
    requires Referral(DoctorTable(doctors, diseases), disease).Success?
    ensures disease in diseases
  {
  }
}

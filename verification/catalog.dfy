/** The disease catalog service: a fixed table from lower-case disease name to
    an information record, queried by name through `get_disease_info`. */
module Catalog {
  import opened Text

  /** The response record of the catalog endpoint. */
  datatype DiseaseRecord = DiseaseRecord(
    description: string,
    symptoms: seq<string>,
    treatment: string,
    exercise: string,
    sleepHours: string,
    diet: string)

  /** The stored catalog, keyed by lower-case disease name. */
  const Diseases: map<string, DiseaseRecord> := map[
    "diabetes" := DiseaseRecord(
      "A chronic condition that affects how your body processes blood sugar.",
      ["Frequent urination", "Increased thirst", "Extreme hunger", "Fatigue"],
      "Regular exercise, healthy diet, and insulin therapy.",
      "Engage in moderate-intensity activities such as brisk walking or cycling for 30 minutes daily.",
      "7-8 hours per night to improve blood sugar levels and manage stress.",
      "Low-carb, high-fiber foods, avoid processed sugars and saturated fats."),
    "hypertension" := DiseaseRecord(
      "High blood pressure, often with no symptoms but can lead to severe health issues.",
      ["Headache", "Shortness of breath", "Nosebleeds", "Fatigue"],
      "Medication, lifestyle changes, and regular monitoring.",
      "30-40 minutes of moderate aerobic exercises like walking, swimming, or cycling.",
      "7-9 hours to help regulate blood pressure levels.",
      "Low-sodium diet, rich in fruits, vegetables, whole grains, and lean proteins."),
    "heart disease" := DiseaseRecord(
      "A range of conditions that affect the heart, including coronary artery disease.",
      ["Chest pain", "Shortness of breath", "Pain in neck/jaw", "Fatigue"],
      "Medications, lifestyle changes, and possibly surgery.",
      "Regular low-intensity exercises, such as walking or yoga, for 30 minutes most days.",
      "7-9 hours to support heart health.",
      "Mediterranean diet with lots of fruits, vegetables, whole grains, and healthy fats."),
    "asthma" := DiseaseRecord(
      "A condition where airways narrow and swell, producing extra mucus.",
      ["Shortness of breath", "Chest tightness", "Wheezing", "Coughing"],
      "Inhalers, medication, and avoiding triggers.",
      "Breathing exercises, light aerobic activities, but avoid outdoor activities in cold weather.",
      "7-8 hours to help reduce inflammation and maintain respiratory health.",
      "Anti-inflammatory diet with leafy greens, nuts, and healthy oils; avoid processed foods.")
  ]

  const NoRecommendation := "No specific recommendations"

  /** The record returned for a name the catalog does not hold. */
  const NotFound := DiseaseRecord("Disease not found", [], "", NoRecommendation, NoRecommendation, NoRecommendation)

  /** The `get_disease_info` handler: lower-cases the query (without trimming)
      and answers with the stored record or with the not-found record. An empty
      symptom list is the caller's signal of a miss. */
  function GetDiseaseInfo(query: string): (r: DiseaseRecord)
    ensures Lower(query) in Diseases ==> r == Diseases[Lower(query)]
    ensures Lower(query) !in Diseases ==>
      && r.description == "Disease not found"
      && r.symptoms == [] && r.treatment == ""
      && r.exercise == NoRecommendation && r.sleepHours == NoRecommendation && r.diet == NoRecommendation
    ensures |r.symptoms| == 0 <==> Lower(query) !in Diseases
  {
    StoredSymptomsNonEmpty();
    var key := Lower(query);
    if key in Diseases then Diseases[key] else NotFound
  }

  /** Every stored record lists at least one symptom. */
  lemma StoredSymptomsNonEmpty()
    ensures forall k :: k in Diseases ==> |Diseases[k].symptoms| > 0
  {
  }

  /** Every key of the table is in lower case. */
  lemma KeysLowerCase()
    ensures forall k :: k in Diseases ==> IsLowerCase(k)
  {
  }

  /** A query and its lower-cased form get the same answer. */
  lemma LookupIgnoresCase(query: string)
    ensures GetDiseaseInfo(query) == GetDiseaseInfo(Lower(query))
  {
    LowerIdempotent(query);
  }

  /** Every stored record can be reached: asking for its key, in any mix of
      cases, returns exactly that record. */
  lemma {:induction false} EveryKeyReachable(key: string, query: string)
    requires key in Diseases
    requires Lower(query) == key
    ensures GetDiseaseInfo(query) == Diseases[key]
    ensures GetDiseaseInfo(key) == Diseases[key]
  {
    KeysLowerCase();
    LowerOfLowerCase(key);
  }

  /** Asking for "DIABETES" returns the diabetes record. */
  lemma UpperCaseQueryHits()
    ensures GetDiseaseInfo("DIABETES") == Diseases["diabetes"]
    ensures GetDiseaseInfo("DIABETES").description == "A chronic condition that affects how your body processes blood sugar."
  {
    assert Lower("DIABETES") == "diabetes";
  }

  /** No whitespace is trimmed: " diabetes" is a miss. */
  lemma LeadingSpaceMisses()
    ensures GetDiseaseInfo(" diabetes") == NotFound
  {
  }
}

/** The symptom drop-down of the main page: the symptoms of the selected
    disease, or, with no disease selected, every symptom of the table once,
    in sorted order. */
module SymptomMenu {
  import opened Text
  import Catalog

  /** One entry of the page's disease-to-symptoms dictionary. */
  datatype Entry = Entry(disease: string, symptoms: seq<string>)

  /** The page's own disease-to-symptoms table, in insertion order. */
  const DiseaseSymptoms: seq<Entry> := [
    Entry("diabetes", ["Frequent urination", "Increased thirst", "Extreme hunger", "Fatigue"]),
    Entry("hypertension", ["Headache", "Shortness of breath", "Nosebleeds", "Fatigue"]),
    Entry("heart disease", ["Chest pain", "Shortness of breath", "Pain in neck/jaw", "Fatigue"]),
    Entry("asthma", ["Shortness of breath", "Chest tightness", "Wheezing", "Coughing"])
  ]

  /** The diseases of a table, in table order (the disease drop-down after its
      leading empty choice). */
  function Diseases(table: seq<Entry>): (r: seq<string>)
    ensures |r| == |table|
    ensures forall i :: 0 <= i < |table| ==> r[i] == table[i].disease
  {
    if |table| == 0 then [] else [table[0].disease] + Diseases(table[1..])
  }

  /** A dictionary holds each key once. */
  predicate DistinctKeys(table: seq<Entry>) {
    forall i, j :: 0 <= i < j < |table| ==> table[i].disease != table[j].disease
  }

  /** The symptom list stored for `disease`: the list of the one entry with
      that key. */
  function SymptomsOf(table: seq<Entry>, disease: string): (r: seq<string>)
    requires DistinctKeys(table)
    requires disease in Diseases(table)
    ensures exists i :: 0 <= i < |table| && table[i].disease == disease && table[i].symptoms == r
    ensures forall i :: 0 <= i < |table| && table[i].disease == disease ==> table[i].symptoms == r
  {
    if table[0].disease == disease then table[0].symptoms
    else
      assert forall i :: 1 <= i < |table| ==> table[i] == table[1..][i - 1];
      SymptomsOf(table[1..], disease)
  }

  /** Every symptom of every entry, concatenated in table order. */
  function AllSymptoms(table: seq<Entry>): (r: seq<string>)
    ensures forall s :: s in r <==> exists i :: 0 <= i < |table| && s in table[i].symptoms
  {
    if |table| == 0 then []
    else
      var rest := AllSymptoms(table[1..]);
      assert forall i :: 1 <= i < |table| ==> table[i] == table[1..][i - 1];
      table[0].symptoms + rest
  }

  /** The symptom options for the selected disease ("" when none is selected):
      the selected disease's list unchanged, or else the sorted, duplicate-free
      list of exactly the symptoms that occur in some entry. */
  function SymptomOptions(table: seq<Entry>, selected: string): (r: seq<string>)
    requires DistinctKeys(table)
    requires selected == "" || selected in Diseases(table)
    ensures selected != "" ==> exists i :: 0 <= i < |table| && table[i].disease == selected && r == table[i].symptoms
    ensures selected != "" ==> forall i :: 0 <= i < |table| && table[i].disease == selected ==> r == table[i].symptoms
    ensures selected == "" ==> StrictlySorted(r)
    ensures selected == "" ==> forall s :: s in r <==> exists i :: 0 <= i < |table| && s in table[i].symptoms
  {
    if selected != "" then SymptomsOf(table, selected) else SortedSet(AllSymptoms(table))
  }

  /** The unselected options hold each symptom exactly once. */
  lemma OptionsDistinct(table: seq<Entry>)
    requires DistinctKeys(table)
    ensures var r := SymptomOptions(table, "");
      forall i, j :: 0 <= i < |r| && 0 <= j < |r| && i != j ==> r[i] != r[j]
  {
    StrictlySortedDistinct(SymptomOptions(table, ""));
  }

  /** The unselected options are the only sorted duplicate-free list of the
      table's symptoms. */
  lemma OptionsCharacterised(table: seq<Entry>, xs: seq<string>)
    requires DistinctKeys(table)
    requires StrictlySorted(xs)
    requires forall s :: s in xs <==> exists i :: 0 <= i < |table| && s in table[i].symptoms
    ensures SymptomOptions(table, "") == xs
  {
    StrictlySortedUnique(SymptomOptions(table, ""), xs);
  }

  /** The page's table agrees, key for key, with the symptom lists of the
      disease catalog. */
  lemma TableMatchesCatalog()
    ensures DistinctKeys(DiseaseSymptoms)
    ensures |DiseaseSymptoms| == |Catalog.Diseases|
    ensures forall i :: 0 <= i < |DiseaseSymptoms| ==>
      && DiseaseSymptoms[i].disease in Catalog.Diseases
      && Catalog.Diseases[DiseaseSymptoms[i].disease].symptoms == DiseaseSymptoms[i].symptoms
    ensures forall k :: k in Catalog.Diseases ==> k in Diseases(DiseaseSymptoms)
  {
  }

  /** The symptom options offered when no disease is selected. */
  const UnselectedSymptoms: seq<string> := [
    "Chest pain", "Chest tightness", "Coughing", "Extreme hunger", "Fatigue",
    "Frequent urination", "Headache", "Increased thirst", "Nosebleeds",
    "Pain in neck/jaw", "Shortness of breath", "Wheezing"]

  /** With no disease selected the page offers exactly these twelve symptoms. */
  lemma UnselectedOptions()
    ensures SymptomOptions(DiseaseSymptoms, "") == UnselectedSymptoms
  {
    TableMatchesCatalog();
    UnselectedSorted();
    UnselectedCoversTable();
    OptionsCharacterised(DiseaseSymptoms, UnselectedSymptoms);
  }

  lemma UnselectedCoversTable()
    ensures forall s :: s in UnselectedSymptoms <==> exists i :: 0 <= i < |DiseaseSymptoms| && s in DiseaseSymptoms[i].symptoms
  {
    var xs := UnselectedSymptoms;
    var t := DiseaseSymptoms;
    // Each entry's symptoms, written as options.
    assert t[0].symptoms == [xs[5], xs[7], xs[3], xs[4]];
    assert t[1].symptoms == [xs[6], xs[10], xs[8], xs[4]];
    assert t[2].symptoms == [xs[0], xs[10], xs[9], xs[4]];
    assert t[3].symptoms == [xs[10], xs[1], xs[11], xs[2]];
    // Where each option occurs in the table.
    var row := [2, 3, 3, 0, 0, 0, 1, 0, 1, 2, 1, 3];
    var col := [0, 1, 3, 2, 3, 0, 0, 1, 2, 2, 1, 2];
    assert forall k :: 0 <= k < |xs| ==> xs[k] == t[row[k]].symptoms[col[k]];
    forall s ensures s in xs <==> exists i :: 0 <= i < |t| && s in t[i].symptoms {
      if s in xs {
        var k :| 0 <= k < |xs| && xs[k] == s;
        assert s in t[row[k]].symptoms;
      }
    }
  }

  lemma UnselectedSorted()
    ensures StrictlySorted(UnselectedSymptoms)
  {
    var xs := UnselectedSymptoms;
    LessAtFirstDifference(xs[0], xs[1], 6);
    LessAtFirstDifference(xs[1], xs[2], 1);
    LessAtFirstDifference(xs[2], xs[3], 0);
    LessAtFirstDifference(xs[3], xs[4], 0);
    LessAtFirstDifference(xs[4], xs[5], 1);
    LessAtFirstDifference(xs[5], xs[6], 0);
    LessAtFirstDifference(xs[6], xs[7], 0);
    LessAtFirstDifference(xs[7], xs[8], 0);
    LessAtFirstDifference(xs[8], xs[9], 0);
    LessAtFirstDifference(xs[9], xs[10], 0);
    LessAtFirstDifference(xs[10], xs[11], 0);
    ChainSorted(xs);
  }
}

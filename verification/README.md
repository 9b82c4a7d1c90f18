# Healthcare chatbot core, modelled in Dafny

This project models the sequential logic of a small healthcare chatbot:

- **Disease catalog** (`app.py`): a fixed table from lower-case disease name
  to a record (description, symptoms, treatment, exercise, sleep hours,
  diet). The `get_disease_info` handler lower-cases the query, without
  trimming it. It returns the stored record on a hit and a fixed
  "Disease not found" record on a miss.
- **Risk assessment and symptom menu** (`chatbot_ui.py`): an additive risk
  score over a questionnaire, bucketed into Low / Moderate / High. Also the
  symptom drop-down: the selected disease's symptoms, or otherwise
  `sorted` of the set of all symptoms.
- **Diagnosis walk** (`bot_page.py`): the `recurse` walk over the arrays of a
  trained decision tree. At each internal node a yes/no answer is coded 0/1
  and compared with the threshold. The walk goes left when the code is at most
  the threshold. Otherwise it records the feature as present and goes right.
  At the leaf the page shows the first class with nonzero weight, a
  confidence ratio and a doctor referral.
- **Credentials** (`auth.py`): the users table of (username, password hash)
  rows. Sign-up appends a row. Login checks the earliest row with that
  username.

Files:

- `wrappers.dfy`: `Option` and `Result`.
- `text.dfy`: ASCII lower-casing, Python's string ordering, and `sorted(set(...))`.
- `catalog.dfy`, `risk_assessment.dfy`, `symptom_menu.dfy`, `decision_tree.dfy`,
  `diagnosis.dfy`, `credentials.dfy`: one module per component.

Inputs the program gets from outside are parameters of the model:

- the fitted tree arrays, the feature names and the class labels;
- the doctors' file and the grouped disease list;
- the lookup of the symptoms associated with a disease;
- the radio answers, as a function from question name to answer. The page keys
  each radio by the feature name, so one name always gets one answer;
- the password hash function;
- the users file, as `None` when it is absent.

Behaviour of the code that the model keeps:

- The catalog query is lower-cased but not trimmed, so " diabetes" is a miss
  (`Catalog.LeadingSpaceMisses`).
- The confidence ratio has no upper bound of 1 (`Diagnosis.ConfidenceCanExceedOne`).
  Only non-negativity is proved.
- The referral table pairs the i-th doctor with the i-th grouped disease by
  position. The page builds the grouped diseases and the label encoder's
  classes from the same training label column (bot_page.py:19,25-26,40-44),
  so both are the same sorted distinct labels. The lookup therefore always
  finds a row, and that row is the doctor at the label's class index. When
  the doctors' file is shorter than the label list, the name and link cells
  are NaN, which the model writes as `None` (`Diagnosis.ReferralAlwaysFound`).

## Model

| member | source | states |
|---|---|---|
| Text.Lower | app.py:58 | lower-casing keeps the length, yields a lower-case string and changes each character only in case |
| Text.LowerIdempotent | app.py:58 | lower-casing twice is the same as lower-casing once |
| Text.LowerOfLowerCase | app.py:58-59 | a string already in lower case is left unchanged |
| Text.SortedSet | chatbot_ui.py:64 | `sorted` of a set of strings is strictly increasing in Python's string order and holds exactly the input's strings |
| Text.StrictlySortedUnique | chatbot_ui.py:64 | a strictly sorted list is determined by its elements, so the sorted set is the only such list |
| Text.StrictlySortedDistinct | chatbot_ui.py:64 | a strictly sorted list has no duplicates |
| Text.Insert | chatbot_ui.py:64 | adding a string to a sorted duplicate-free list keeps it sorted and duplicate-free and adds exactly that string |
| Text.LessTotal | chatbot_ui.py:64 | Python's string order ranks any two different strings |
| Text.LessTransitive | chatbot_ui.py:64 | Python's string order is transitive |
| Catalog.GetDiseaseInfo | app.py:57-68 | a hit returns the stored record; a miss returns "Disease not found" with empty symptoms and treatment and "No specific recommendations" elsewhere; the symptom list is empty exactly on a miss |
| Catalog.StoredSymptomsNonEmpty | app.py:8-41 | every stored record lists at least one symptom |
| Catalog.KeysLowerCase | app.py:8-41 | every key of the table is in lower case |
| Catalog.LookupIgnoresCase | app.py:58-60 | a query and its lower-cased form get the same answer |
| Catalog.EveryKeyReachable | app.py:58-60 | every stored record is returned for its own key and for any query that lower-cases to it |
| Catalog.UpperCaseQueryHits | app.py:58-60 | "DIABETES" returns the diabetes record |
| Catalog.LeadingSpaceMisses | app.py:58-68 | " diabetes" is a miss, since nothing is trimmed |
| RiskAssessment.LifestylePoints | chatbot_ui.py:231-245 | the seven one-point rules give at most 7 points |
| RiskAssessment.RiskScore | chatbot_ui.py:231-247 | the score lies in 0..9; it is at least 2 exactly when Diabetes or Hypertension is selected or at least two rules fire, and at most 7 without a chronic condition |
| RiskAssessment.Level | chatbot_ui.py:253-258 | Low exactly for scores up to 3, Moderate exactly for 4..6, High exactly from 7, so every score has exactly one level |
| RiskAssessment.ScoreMonotone | chatbot_ui.py:232-247 | moving any factor towards more risk never lowers the score or leaves High |
| RiskAssessment.RuleBoundaries | chatbot_ui.py:232-245 | age 45, activity 3, sleep 5, stress 7 and BMI 24.99 add nothing; age 46, activity 2, BMI 25, sleep 4 and stress 8 add one point |
| RiskAssessment.BmiBelowThreshold | chatbot_ui.py:238-239 | every BMI below 25 scores one point less than BMI 25 |
| RiskAssessment.FlagRules | chatbot_ui.py:234-241 | smoking "Yes" and family history each add one point |
| RiskAssessment.ChronicBonusOnce | chatbot_ui.py:246-247 | Diabetes and Hypertension together add 2 points, as either alone does; Heart Disease, Asthma and None add nothing |
| RiskAssessment.WorkedExample | chatbot_ui.py:231-258 | age 50, smoker, activity 2, BMI 27, family history, sleep 4, stress 8 and no conditions scores 7, High |
| SymptomMenu.Diseases | chatbot_ui.py:57 | the disease list holds the table's keys in table order |
| SymptomMenu.SymptomsOf | chatbot_ui.py:62 | on a table with distinct keys, as a dictionary has, the symptoms returned are the list stored under the selected disease, and every entry with that key holds that list |
| SymptomMenu.AllSymptoms | chatbot_ui.py:64 | the collected symptoms are exactly those occurring in some entry |
| SymptomMenu.SymptomOptions | chatbot_ui.py:61-64 | on a table with distinct keys: with a disease selected, the list stored under that key, unchanged; otherwise a sorted duplicate-free list of exactly the symptoms of the table |
| SymptomMenu.OptionsDistinct | chatbot_ui.py:64 | the unselected options hold each symptom once |
| SymptomMenu.OptionsCharacterised | chatbot_ui.py:63-64 | the unselected options are the only sorted duplicate-free list of the table's symptoms |
| SymptomMenu.UnselectedOptions | chatbot_ui.py:63-64 | the page's table gives exactly twelve options, from "Chest pain" to "Wheezing" |
| SymptomMenu.TableMatchesCatalog | chatbot_ui.py:10-15 | the page's table has the catalog's four keys, each with the catalog's symptom list |
| DecisionTree.FeatureNames | bot_page.py:60-63 | each internal node is named by its feature and each leaf is named "undefined!" |
| DecisionTree.Code | bot_page.py:72-75 | an answer codes to 1 exactly when it lower-cases to "yes", and to 0 otherwise |
| DecisionTree.Recurse | bot_page.py:65-81 | the walk follows the answers child by child to a leaf; it records the names of exactly the right turns, in path order; the path's node numbers strictly increase and stay below the leaf's |
| DecisionTree.StepDown | bot_page.py:77-81 | putting an internal node before a descent from the child its answer selects gives a descent from that node that follows the answers |
| DecisionTree.RightTurnStep | bot_page.py:77-81 | one step adds the node's name to the recorded names exactly when the walk turns right there |
| DecisionTree.WalkFromRoot | bot_page.py:106 | the walk from the root ends at a leaf; it asks fewer questions than there are nodes and records at most as many names as questions |
| DecisionTree.WalkDetermined | bot_page.py:65-81 | any descent that turns the way each answer dictates is the walk itself |
| DecisionTree.Questions | bot_page.py:67-69 | the questions asked are the names of the path's nodes, in order |
| DecisionTree.RightTurnNames | bot_page.py:80 | the recorded names are never more than the path's nodes |
| DecisionTree.Build | bot_page.py:59-66 | the nested tree has a leaf exactly where the feature is `TREE_UNDEFINED` |
| DecisionTree.Descend | bot_page.py:65-81 | a walk on the nested tree asks at most one question per level and records at most one name per question |
| DecisionTree.WalkMatchesNestedTree | bot_page.py:65-83 | the array walk and the nested-tree walk ask the same questions, record the same names and reach the same leaf weights |
| Diagnosis.FirstNonzero | bot_page.py:55 | the first nonzero index of a weight vector, or none exactly when all weights are zero |
| Diagnosis.LeafLabel | bot_page.py:53-56 | the label is the class of the smallest index with nonzero weight; it fails with `NoOutput` without an output row, with `UnseenClass` when a nonzero class has no label, and with `NoNonzeroClass` when no class is nonzero |
| Diagnosis.Confidence | bot_page.py:91-94 | the ratio times the denominator gives the recorded count; it is 0 with no associated symptoms and never negative |
| Diagnosis.ConfidenceCanExceedOne | bot_page.py:91-92 | the ratio is not capped at 1 |
| Diagnosis.DoctorTable | bot_page.py:41-45 | the i-th doctor row is paired with the i-th grouped disease, with missing cells where one list runs out |
| Diagnosis.Referral | bot_page.py:102-104 | the referral is the first row whose disease is the label, and fails exactly when there is no such row |
| Diagnosis.ReferralIsPositional | bot_page.py:102-104 | for the i-th grouped disease, the referral is the i-th doctor |
| Diagnosis.NoReferralForUnknownDisease | bot_page.py:102-104 | a label outside the grouped diseases has no referral |
| Diagnosis.ReferredDiseaseListed | bot_page.py:102-103 | a label with a referral is one of the grouped diseases |
| Diagnosis.Diagnose | bot_page.py:82-104 | a session succeeds exactly when the leaf has a label and the label has a referral; it then reports the walk's questions and recorded names, the leaf label, the guarded ratio, and the referral row's doctor name and link; a failure carries the labelling error, or else `NoReferral` |
| Diagnosis.ReferralAlwaysFound | bot_page.py:19-44 | when the classes and the grouped diseases are the same distinct label list, as the page builds them, a session fails only when labelling fails, and never with `NoReferral`; on success the doctor's name and link are those of the doctor at the class index of the leaf's first nonzero class, or `None` past the end of the doctors' file |
| Credentials.LoadUsers | auth.py:10-16 | a missing users file reads as an empty table, and an existing file reads back as exactly its rows |
| Credentials.FirstRow | auth.py:28-29 | finds the earliest row with the username, and none exactly when no row has it |
| Credentials.SaveUser | auth.py:19-23 | sign-up appends exactly one row `(u, hash(p))` and keeps the earlier rows in order |
| Credentials.Authenticate | auth.py:26-31 | login fails for an unknown username; otherwise it succeeds exactly when the earliest row with that username stores the hash of the password |
| Credentials.AbsentFileRejectsAll | auth.py:11-15 | without a users file every login fails |
| Credentials.SignedUpUserCanLogIn | auth.py:19-30 | after the first sign-up of a username, logging in with that password succeeds |
| Credentials.RepeatSignUpIgnored | auth.py:22-29 | a second sign-up of a username does not change its logins, since the earliest row decides |
| Credentials.SignUpKeepsOtherLogins | auth.py:19-31 | a sign-up leaves the logins of every other username unchanged |
| Credentials.SignUp | auth.py:70-75 | an account is saved exactly when the password equals its confirmation; otherwise the file is unchanged |
| Credentials.SignUpThenLogIn | auth.py:70-75 | a confirmed first sign-up lets the user log in; a mismatched confirmation changes no login result |
| Credentials.LogIn | auth.py:56-62 | a successful check logs the user in; a failed one leaves the session unchanged |
| Credentials.SignUpThenSession | auth.py:56-75 | after a confirmed first sign-up, pressing "Login" with that password gives the session (true, u), whatever the session was before |

## Left out

- Text.Lower: models Python's `str.lower` on ASCII letters only. Other Unicode case mappings are not modelled.
- Streamlit presentation: CSS, widgets, page navigation and the `streamlit run` process respawns (chatbot_ui.py, bot_page.py). They are UI and process control.
- HTTP wiring: the FastAPI app, route decorators, the welcome-message root endpoint (app.py:71-73) and the `requests.post` calls. The handler is modelled as a pure function.
- Training and data loading: CSV reads, the train/test split, the classifier fit and the label encoder fit (bot_page.py:14-39). These are library calls. Their products are inputs.
- The symptom set looked up for the confidence denominator (bot_page.py:86-88). It is an input function of the label. The cell it actually selects is not modelled.
- The related-diseases filter for a selected symptom (chatbot_ui.py:115). It indexes a list with a string and raises at run time, so there is nothing working to model.
- SHA-256 and the CSV file format (auth.py:7,12,23). The hash is a parameter. The file is an in-memory table, so CSV type inference on usernames is not modelled.
- The recursion depth argument of `recurse`. It is never read.
- Display formatting: the two-decimal confidence display and its duplicate (bot_page.py:96,100), the health tips, the developer page, and the recommendations column reading `data` instead of `datas` (chatbot_ui.py:130,139).
- Unused questionnaire fields: gender and diet type. They are collected but never scored.
- Confidence is a real ratio, not a float.
- The logout button (auth.py:43-45). It only resets the session fields.
- Diagnosis.Diagnose: takes the label encoder's classes and the grouped diseases as two independent inputs, so its `NoReferral` failure covers tables the page never builds. With one list for both, `Diagnosis.ReferralAlwaysFound` shows that this failure cannot occur. When the referral lookup does fail, `Failure(NoReferral)` does not carry the label, confidence and present symptoms that the page would already have shown (bot_page.py:84,96,99-100).

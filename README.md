# Legal clause risk analysis: a verified model of the analysis core

The service takes an uploaded contract (PDF or DOCX) and extracts its text. It
cuts the text into clauses and analyses each clause twice:

- phase 1 gives the clause type and a confidence, from a trained pipeline;
- phase 3 gives a risk level, a confidence and a justification, from a risk
  classifier and a feature-attribution explainer.

The justification is a one-sentence reading of the five strongest attributions.
This project models the logic between the file upload and the JSON response, and
proves what that logic guarantees:

- **`Segmenter`** (`segmenter.dfy`) models `split_into_clauses`. The title
  marker is inserted first. The text is then cut at numbered-clause delimiters,
  which works like `re.split` with a capturing group; the delimiter has one or
  two digits, and at most one of the two forms matches at any index. The preamble comes first, and each delimiter is then
  joined to the piece after it. If no clause is found, the text is cut at blank
  lines, and failing that at sentence ends. Every clause is stripped and must
  be longer than 20 characters. The loop over the split is a method proved
  against the function `Segment`.
- **`Justification`** (`justification.dfy`) models
  `generate_human_readable_justification` and its term dictionary. The loop is
  a method proved against the functions `Phrases` and `Render`.
- **`RiskScorer`** (`risk.dfy`) models `analyze_risk_with_model`:
  - the degraded-mode result;
  - the pairing of feature names with attribution values;
  - the stable sort by magnitude, largest first, cut to five;
  - the three justification outcomes: no explainer, explainer error, or
    rendered justification.
- **`Upload`** (`upload.dfy`) models `allowed_file`, the phase-1 block with its
  error handling, the per-clause loop, and the status codes and messages of
  `upload_file`.
- **`Text`** (`text.dfy`) models the Python string operations the core relies
  on: `strip`, `lower`, `str.split`, `str.join`, `find`, and `str(int)`.
- **`Wrappers`** (`wrappers.dfy`) holds `Option`, and `Result`, whose
  `Raised(message)` case stands for an exception.

The collaborators are given as function-valued fields of datatypes:

- the vectorizer, the risk classifier, the explainer, the clause-type pipeline
  and its class map;
- the text extracted from the uploaded file, which is a parameter.

A missing model (`None` after a failed load) is `Option.None`. A call that may
raise returns a `Result`.

## Model

| member | source | states |
|---|---|---|
| Text.IsSpace | app.py:97 | the characters Python's `str.isspace()` accepts, which are the ones `strip()` removes |
| Text.LeadingSpaces | app.py:97 | the count of leading characters `strip()` removes never exceeds the length |
| Text.TrailingSpaces | app.py:97 | the count of trailing characters `strip()` removes never exceeds the length |
| Text.LeadingSpacesSpec | app.py:97 | every counted leading character is whitespace and the next one is not |
| Text.TrailingSpacesSpec | app.py:97 | every counted trailing character is whitespace and the one before is not |
| Text.Strip | app.py:97 | `str.strip()`: the input with the whitespace run at each end cut off (characterised by the next four rows) |
| Text.StripSlice | app.py:97 | `strip()` yields a contiguous slice of its input, starting after the leading whitespace |
| Text.StripTrimmed | app.py:97 | the result of `strip()` has no whitespace at either end |
| Text.StripRemovesSpace | app.py:97 | everything `strip()` removes, at either end, is whitespace |
| Text.StripIsSlice | app.py:97 | `strip()` keeps exactly the slice between the two whitespace runs, and that slice is trimmed |
| Text.StripOfTrimmed | app.py:102 | a trimmed string is its own `strip()`, so stripping twice changes nothing |
| Text.StripContained | app.py:102 | every string contains its `strip()` |
| Text.LowerChar | app.py:124 | ASCII capitals map to the lower-case letter 32 code points up; every other character is unchanged |
| Text.Lower | app.py:124 | `lower()` keeps the length |
| Text.FindFrom | app.py:94 | the search returns the first occurrence at or after the start, and None only when there is no occurrence |
| Text.Split | app.py:106 | `split(sep)` gives at least one part; joining the parts with `sep` gives the input back; no part contains `sep`; each cut is at the leftmost occurrence after the previous cut, so the parts are those Python returns even when `sep` can overlap itself |
| Text.FirstCutLeftmost | app.py:106 | the cut at the first occurrence leaves no occurrence that starts before it |
| Text.CutsCons | app.py:106 | a leftmost, separator-free first part in front of parts cut the same way keeps both properties |
| Text.JoinWith | app.py:132 | `sep.join(parts)`: the parts in order with `sep` between neighbours, empty for no parts |
| Text.JoinWithContainsParts | app.py:106 | each part of a separated join occurs in the joined string |
| Text.ConcatContainsParts | app.py:95 | each part of a concatenation occurs in the concatenation |
| Text.ContainsTransitive | app.py:102 | substring containment is transitive |
| Text.DigitChar | app.py:207 | a digit value maps to the decimal digit character of that value |
| Text.NatToString | app.py:207 | `str(n)` is a non-empty run of decimal digits with no leading zero |
| Text.NatToStringRoundTrip | app.py:207 | reading back the digits of `str(n)` gives `n` |
| Text.NatToStringInjective | app.py:207 | distinct naturals have distinct decimal renderings |
| Text.IntToStringSign | app.py:207 | `str(n)` starts with '-' exactly when `n` is negative, followed by the digits of `-n` |
| Text.IntToString | app.py:207 | `str(n)` for an integer: '-' and the digits of `-n` when negative, else the digits of `n` |
| Text.IntToStringInjective | app.py:207 | distinct integers have distinct decimal renderings |
| Segmenter.InjectTitleMarker | app.py:94 | text without the title is unchanged; otherwise "0. " is inserted just before the title's first occurrence, and only there |
| Segmenter.InjectedMarkerDelimiter | app.py:94-95 | the inserted "0" joins a clause delimiter exactly when the title followed a newline, or a newline and one digit; the marker starts no delimiter of its own |
| Segmenter.DelimLenAt | app.py:95 | a match of `\n\d{1,2}\. ` is 0, 4 or 5 characters long, and a match is a delimiter |
| Segmenter.DelimLenAtIff | app.py:95 | the matcher reports a delimiter of length 4 or 5 at an index exactly when one stands there, so at most one of the two forms matches at any index |
| Segmenter.DelimFormsExclusive | app.py:95 | the one-digit and the two-digit delimiter never both stand at the same index: the third character is '.' in one and a digit in the other |
| Segmenter.FirstDelim | app.py:95 | the scan finds the leftmost delimiter at or after the start, and None only when there is none |
| Segmenter.IsDelimiter | app.py:95 | a delimiter is a newline, one or two digits, a full stop and a space |
| Segmenter.FirstPieceClean | app.py:95 | the text before the first delimiter holds no delimiter |
| Segmenter.NumberedSplit | app.py:95 | the split has an odd number of entries: one more piece than delimiters |
| Segmenter.NumberedSplitConcat | app.py:95 | the entries of the split concatenate back to the text |
| Segmenter.ConcatPair | app.py:95 | concatenating a piece, a delimiter and the rest of a split is the piece, then the delimiter, then the rest |
| Segmenter.NumberedSplitDelimiters | app.py:95 | every odd-position entry of the split is a delimiter |
| Segmenter.DelimitersCons | app.py:95 | a piece and a delimiter in front of a split keep every odd-position entry a delimiter |
| Segmenter.NumberedSplitPieces | app.py:95 | no even-position entry of the split holds a delimiter |
| Segmenter.PiecesCons | app.py:95 | a delimiter-free piece and a delimiter in front of a split keep every even-position entry delimiter-free |
| Segmenter.PairsFrom | app.py:100-102 | the loop's pairs from an index on: each delimiter joined to the piece after it, with an unpaired last element dropped (characterised by PairsFromAt and PairsFromLength) |
| Segmenter.PairsFromAt | app.py:100-102 | the m-th pair walked from index i is entry i+2m joined to entry i+2m+1 |
| Segmenter.PairsFromLength | app.py:100-102 | walking an even-length tail two entries at a time gives half as many pairs, which concatenate to the tail |
| Segmenter.Candidates | app.py:97-102 | the numbered tier's candidates: the preamble, then each delimiter joined to the piece after it |
| Segmenter.CandidatesPartition | app.py:95-102 | the preamble and the joined pairs cut the text into consecutive pieces; the preamble holds no delimiter; each later candidate is one delimiter followed by delimiter-free text |
| Segmenter.CandidatesConcat | app.py:97-102 | the candidates concatenate back to the text |
| Segmenter.CandidatesDelimited | app.py:100-102 | each candidate after the preamble is a delimited clause |
| Segmenter.DelimitedPair | app.py:102 | a delimiter joined to delimiter-free text matches at its start and nowhere after it |
| Segmenter.Kept | app.py:103-104 | one candidate contributes its stripped form when that is longer than 20 characters, and nothing otherwise |
| Segmenter.KeepLong | app.py:98-108 | the filter of every tier: the stripped candidates longer than 20 characters, in order |
| Segmenter.KeepLongSound | app.py:98-99 | the length filter keeps at most as many clauses as candidates; each is trimmed, longer than 20, and the `strip()` of a candidate; no long-enough candidate is dropped |
| Segmenter.KeepLongCons | app.py:103-104 | the filter treats candidates one at a time, in order |
| Segmenter.KeepLongAppend | app.py:106 | filtering a concatenation gives the filtered halves in turn, so order is kept |
| Text.StripOfSubstringNoLonger | app.py:97-108 | the `strip()` of any piece of a text is never longer than the `strip()` of the whole text |
| Text.TrimmedWithinStrip | app.py:97 | a piece of a text with no whitespace at either end is no longer than the `strip()` of the text |
| Text.NonSpaceWithinStrip | app.py:97 | any two non-whitespace positions lie within the span that `strip()` keeps |
| Segmenter.KeepLongContained | app.py:106 | if every candidate occurs in the text, so does every kept clause |
| Segmenter.NumberedTier | app.py:95-104 | tier 1: the filtered candidates of the numbered split |
| Segmenter.ParagraphTier | app.py:106 | tier 2: the filtered parts of `split("\n\n")` |
| Segmenter.SentenceTier | app.py:108 | tier 3: the filtered parts of `split(". ")` |
| Segmenter.Segment | app.py:93-109 | the clauses of a document: the first non-empty tier of the marked-up text, else the sentence tier |
| Segmenter.NumberedTierPreambleFirst | app.py:97-104 | the numbered tier lists the stripped preamble first (when long enough), then the clauses of the later candidates |
| Segmenter.NumberedTierDelimited | app.py:100-104 | every clause after the preamble is the stripped form of a delimiter followed by the text up to the next delimiter |
| Segmenter.KeepLongTailDelimited | app.py:100-104 | clauses kept from delimited candidates are stripped delimited candidates |
| Segmenter.SegmentCascade | app.py:105-109 | the paragraph split is used only when the numbered split yields nothing, and the sentence split only when both yield nothing; the result is empty exactly when all three are |
| Segmenter.SegmentUndelimitedWhole | app.py:95-99 | text with no numbered delimiter that is longer than 20 characters once stripped is the numbered tier's one clause and comes back as that one stripped text |
| Segmenter.SegmentUndelimitedShort | app.py:95-109 | text with no numbered delimiter that is 20 characters or fewer once stripped yields no clause from any tier |
| Segmenter.SegmentFallbackNeedsDelimiter | app.py:105-109 | the blank-line and sentence fallbacks produce clauses only when the text has a numbered delimiter and every numbered candidate is 20 characters or fewer once stripped |
| Segmenter.KeepLongShort | app.py:98-108 | when every candidate is a piece of a text that is 20 characters or fewer once stripped, the filter keeps nothing |
| Segmenter.SplitPartsContained | app.py:106-108 | every part of a `str.split` is a contiguous piece of the text split |
| Segmenter.SegmentClausesWellFormed | app.py:96-109 | whatever tier is used, every clause is trimmed and longer than 20 characters |
| Segmenter.SegmentClausesAreSubstrings | app.py:94-109 | every clause is a contiguous piece of the text after the title marker is added |
| Segmenter.WalkStep | app.py:100-104 | one step of the walk keeps the invariant: clauses so far plus the clauses still to come make up the tier |
| Segmenter.NumberedClauses | app.py:96-104 | the loop over the split returns exactly the numbered tier: the preamble, then each delimiter+piece pair, stripped and kept if longer than 20, in order |
| Segmenter.SplitIntoClauses | app.py:93-109 | the method returns exactly the tiered segmentation `Segment(text)` |
| Justification.Direction | app.py:125 | "increases" exactly for a positive value, "reduces" exactly for zero or a negative one |
| Justification.Subject | app.py:124-129 | the first half of each f-string: the dictionary text of the lower-cased term when it is a key, else the term in single quotes |
| Justification.Effect | app.py:125-129 | the second half of each f-string: the direction of the value in parentheses, followed by "risk" |
| Justification.Phrase | app.py:124-129 | the phrase for one attribution: the dictionary text of the lower-cased term or the term in quotes, then the direction in parentheses |
| Justification.Phrases | app.py:123-129 | one phrase per attribution |
| Justification.Render | app.py:130-132 | the text for the attributions: the "unclear" sentence when there are none, else the phrases joined by single spaces and then the advice |
| Justification.DescribeAttribution | app.py:124-129 | the loop body builds the phrase for one attribution: the dictionary text for the lower-cased term, or the term quoted |
| Justification.CollectPhrases | app.py:122-129 | the loop yields one phrase per attribution, in input order |
| Justification.GenerateJustification | app.py:121-132 | the method returns the rendering of the attributions |
| Justification.RenderSentinelIff | app.py:130-132 | the "unclear" sentence is returned exactly when there are no attributions; otherwise the text ends with the advice |
| Justification.PhrasesCons | app.py:123-129 | phrasing works attribution by attribution |
| Justification.RenderCons | app.py:132 | a rendering is the first phrase, then a single space and the rendering of the rest, or the advice when the first phrase is the only one |
| Justification.EffectText | app.py:125-129 | the direction part of a phrase is " (increases risk)" for a positive value and " (reduces risk)" otherwise |
| Justification.EffectDirection | app.py:125-129 | whatever the subject, a phrase ends in " (increases risk)" exactly for a positive value and in " (reduces risk)" exactly otherwise |
| Justification.PhraseDirection | app.py:124-129 | every phrase records the sign of its attribution, in both directions |
| Justification.LowerIdempotent | app.py:124 | `lower()` is idempotent |
| Justification.PhraseCaseInsensitive | app.py:124-126 | a dictionary term gets the same phrase in any letter case, built from its dictionary text |
| Justification.PhraseUnknownQuoted | app.py:127-129 | a term outside the dictionary is quoted exactly as given, case included |
| Justification.ExampleKnownPhrase | app.py:117 | a worked phrase: "confidential" with a positive value |
| Justification.ExampleUnknownPhrase | app.py:128-129 | a worked phrase: an unknown term with a negative value |
| Justification.ExamplePhrases | app.py:123-129 | the worked phrases of a two-attribution input |
| Justification.RenderExample | app.py:121-132 | a worked rendering: two phrases joined by a space, then the advice |
| RiskScorer.Abs | app.py:156 | `abs` is non-negative and equals the value or its negation |
| RiskScorer.Zip | app.py:155 | `zip` pairs names and values index by index, up to the shorter input |
| RiskScorer.Magnitude | app.py:156 | the sort key is the absolute value of the attribution |
| RiskScorer.Insert | app.py:154-157 | one insertion step of the stable sort: inserted into a descending list, the entry goes after every strictly larger entry and before the rest |
| RiskScorer.SortByMagnitude | app.py:154-157 | `sorted(..., key=abs, reverse=True)` as insertion sort (characterised by the sort lemmas below) |
| RiskScorer.InsertPermutes | app.py:154-157 | inserting into the sorted list adds exactly one entry |
| RiskScorer.InsertBounded | app.py:154-157 | inserting an entry into a list bounded in magnitude keeps the bound |
| RiskScorer.DescendingCons | app.py:154-157 | prefixing an entry no smaller than the head keeps the order descending |
| RiskScorer.InsertDescending | app.py:154-157 | inserting into a descending list keeps it descending |
| RiskScorer.SortPermutes | app.py:154-157 | the sort is a permutation of its input |
| RiskScorer.SortDescending | app.py:154-157 | the sort orders by non-increasing magnitude |
| RiskScorer.OfMagnitudeCons | app.py:154-157 | the entries of one magnitude are collected one entry at a time |
| RiskScorer.InsertStable | app.py:154-157 | an inserted entry goes ahead of existing entries of the same magnitude |
| RiskScorer.SortStable | app.py:154-157 | the sort is stable: entries of equal magnitude keep their input order |
| RiskScorer.OfMagnitudeAppend | app.py:154-157 | collecting by magnitude distributes over concatenation |
| RiskScorer.TopFeatures | app.py:154-158 | the sorted attributions cut to the first five |
| RiskScorer.TopFeaturesOrdered | app.py:154-158 | the top features are min(5, n) entries taken from the input, largest first |
| RiskScorer.TopFeaturesLargest | app.py:154-158 | no entry left out of the top features is larger in magnitude than an entry selected |
| RiskScorer.TopFeaturesStable | app.py:154-158 | among entries of equal magnitude, the selected ones are the earliest, in input order |
| RiskScorer.Explanation | app.py:149-163 | the justification of a scored clause is never empty |
| RiskScorer.AnalyzeRisk | app.py:134-169 | every risk result has a non-empty justification |
| RiskScorer.ExplanationNotDegraded | app.py:149-163 | no justification of a scored clause equals the degraded-mode message |
| RiskScorer.AnalyzeRiskDegraded | app.py:138-143 | with the classifier or the vectorizer missing, the result is ("Unknown", 0.0, "Risk model or vectorizer not loaded."); that message appears exactly in that case |
| RiskScorer.AnalyzeRiskScored | app.py:145-169 | with both models loaded: the label and confidence are the classifier's for the clause vector; the justification is "not available" without an explainer, and the error message when it raises; otherwise it is the rendering of the top features of the zipped attributions, which are min(5, n) of them, largest first, none smaller than one left out |
| Upload.LastDot | app.py:71 | the index found is that of a '.' with no '.' after it, and None means the name has no '.' |
| Upload.AllowedFileIff | app.py:70-71 | a name is accepted exactly when it has a '.' and the text after the last one, lower-cased, is "pdf" or "docx" |
| Upload.AllowedFile | app.py:70-71 | `allowed_file`: there is a '.' and the lower-cased text after the last one is an accepted extension |
| Upload.LastDotAt | app.py:71 | a '.' followed by no other '.' is the one `rsplit(".", 1)` splits at |
| Upload.AllowedFileAccepts | app.py:70-71 | worked acceptances: "contract.pdf", "Contract.DOCX", "v1.txt.pdf" |
| Upload.AllowedFileRejects | app.py:70-71 | worked rejections: "contract.txt", "a.pdf.txt", "pdf", and the empty name |
| Upload.ClassLabelUnknownNamesCode | app.py:207 | the fallback label "Unknown (<code>)" names its code: two unmapped codes get the same label exactly when they are equal |
| Upload.ClassLabel | app.py:207 | `class_map.get(code, f"Unknown ({code})")` |
| Upload.Classify | app.py:202-210 | the phase-1 classification of one clause, with the defaults kept on a missing pipeline or a raised prediction |
| Upload.ClassifyOutcomes | app.py:202-210 | without a pipeline, or when prediction raises, the defaults ("N/A", 0.0) stay; after a prediction the label is the code's label, and the confidence is the probability or stays 0.0 when that call raises |
| Upload.ClassifyClause | app.py:202-210 | the phase-1 block computes the classification of the clause |
| Upload.Record | app.py:215-222 | the record of one clause: the clause, its phase-1 classification and its risk result |
| Upload.AnalyzeClauses | app.py:199-222 | the loop produces one record per clause, in clause order, each holding the clause with its phase-1 and phase-3 analyses |
| Upload.UploadFile | app.py:177-224 | 400 "No file provided" without a file; 400 "Invalid file type" for a rejected name; 422 "No readable text found." for empty text; 422 "No clauses detected." when segmentation yields nothing; otherwise the clause count and one record per segmented clause, in order, each clause longer than 20 characters with a non-empty justification |

## Left out

- Collaborators are not modelled, because they are trained artifacts and external code. This covers reading the PDF or DOCX, loading the models, saving and deleting the upload, `secure_filename`, the Flask routing and the logging. The extracted text is a parameter of `Upload.UploadFile`, so the choice between the PDF and the DOCX extractor is not modelled.
- Floating point: probabilities, attributions and confidences are `real`, so NaN and infinities do not arise in the model.
- `round(..., 3)` on the phase-1 confidence is not modelled; the pipeline's probability is taken as already rounded.
- `float(...)`, `int(...)` and `np.array(...).flatten()` are taken as the identity on the values the collaborators return. The exception `int(...)` may raise is folded into the pipeline's `Result`.
- Text.Lower: maps only ASCII capitals, while Python's `lower()` also folds other scripts.
- Segmenter.IsDelimiter: matches only ASCII digits, while Python's `\d` also matches other Unicode decimal digits.
- RiskScorer.AnalyzeRisk: exceptions raised by `transform`, `predict` or `predict_proba` at app.py:145-147 are uncaught in the source and end the request. The model treats these calls as total.
- Truthiness of the loaded objects (`if not clf`, `if shap_explainer`, `if clf_pipeline`) is modelled as presence or absence: a loaded object counts as true.
- upload_file's `file.filename == ""` test needs no separate case: an empty name has no '.', so `AllowedFile` is false for it as well.
- The phrase format follows the code (app.py:126 and 129), which writes `"<text> (<direction> risk)"`.
- Segmenter.SegmentClausesAreSubstrings: clauses are pieces of the text after the title marker is inserted, not of the extracted text itself. When the title occurs, a clause may start with the inserted "0. ".
- The home route and the module-level startup code are not part of this model.

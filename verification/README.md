# NLP-API: label preparation and entity extraction in Dafny

The repository is a small text-classification and entity-extraction service. A
training script prepares multi-label training data and fits a classifier. A web
service returns the predicted labels together with entities pulled out of the
request text. This project models the pure, deterministic parts of both as
total functions over strings and sequences, and proves what they guarantee.

- **Label preparation** (`Training`, `training.dfy`). Each row's label string
  is split on `,` and every piece is stripped. Labels are counted across the
  whole dataset, and a label seen fewer than 3 times becomes `"Other"`. The
  module also models `preprocess_text`, which lower-cases and then strips a
  string.
- **Dictionary extraction** (`EntityExtraction`, `entity_extraction.dfy`).
  Every keyword of the domain knowledge that occurs in the text as a whole word,
  ignoring case, is recorded under its category. The search looks for the
  keyword as literal text, compares letters without regard to ASCII case, and
  accepts a match only when it starts and ends at a word boundary; the match is
  stated directly as a predicate. A position is a `\b` boundary when exactly one
  of the characters on either side of it is a word character, and a position
  outside the text counts as a non-word character. The result is a map that
  starts with the keys `competitors`, `features` and `pricing_keywords`.
  Appending a found keyword under any other category raises `KeyError`; this is
  modelled as a `Result`.
- **Named-entity bucketing and the combined record** (`EntityExtraction`). The
  recogniser's output is a sequence of (text, label) pairs. Entities labelled
  `ORG` go to orgs, `PERSON` to persons, and `GPE` or `LOC` to locations; all
  other labels are dropped. In the combined record, competitors are the
  dictionary competitors followed by the orgs, and the other four lists pass
  through unchanged.
- `Text` (`text.dfy`) holds the shared ASCII character and string helpers:
  whitespace, lower-casing, `strip`, and word characters.

Inputs that the source gets from outside become parameters:

- the knowledge file becomes a `Knowledge` value: the items of the loaded
  dictionary in file order, each a category with its keyword list. A repeated
  key in the file leaves one entry after loading, so the categories are
  distinct, as `DistinctCategories` states;
- the recogniser's entities for the text become a `seq<Entity>`;
- the dataset's `labels` column becomes a `seq<string>`.

One point where the code is narrower than a plain reading of it: an unknown
category in the knowledge raises `KeyError` only when one of its keywords
actually matches the text. The append runs only inside the `if`. An unknown
category with no matching keyword is ignored. The model follows the code, as
`Faulty`, `FirstFaulty` and `ExtractEntities` state.

## Model

| member | source | states |
|---|---|---|
| Text.Strip | train_model.py:18 | the result has no whitespace at either end and is the infix of the input left once all leading and trailing whitespace is removed |
| Text.Lower | train_model.py:86 | an upper-case letter becomes the lower-case letter at the same place in the alphabet, and every other character is unchanged; whitespace and word characters keep their class |
| Text.ToLower | train_model.py:86 | `lower()` keeps the length and lowers each character in place |
| Text.ToLowerConcat | train_model.py:86 | lowering a concatenation is concatenating the lowered parts |
| Text.StripUnique | train_model.py:18 | any stripped string padded with whitespace on both sides strips back to exactly that string, so the result of `strip` is uniquely determined |
| Text.StripIdempotent | train_model.py:86 | stripping an already stripped string changes nothing |
| Training.Split | train_model.py:18 | `split(',')` always yields at least one piece; what the pieces are is stated by Training.SplitCount, Training.SplitPiecesLackSeparator, Training.JoinSplit and Training.SplitJoin |
| Training.SplitCount | train_model.py:18 | `split(',')` yields exactly one more piece than the string has commas |
| Training.SplitPiecesLackSeparator | train_model.py:18 | no piece of a split contains the separator |
| Training.JoinSplit | train_model.py:18 | joining the pieces of a split with the separator gives back the original string, so the pieces keep their order |
| Training.SplitJoin | train_model.py:18 | splitting a join of separator-free pieces gives back those pieces, so split and join are inverse |
| Training.ParseLabels | train_model.py:18 | a row's label list has one entry per comma plus one, and every label has no surrounding whitespace and no comma |
| Training.ParseLabelsOfJoin | train_model.py:18 | a label string made of comma-joined fields parses to those fields, in order, each stripped |
| Training.LabelLists | train_model.py:18 | the label-list column has one entry per row, and entry i is the parsed label list of row i, whose content is stated by Training.ParseLabels and Training.ParseLabelsOfJoin |
| Training.Tally | train_model.py:21 | the Counter has a key exactly for each label that appears, holding the number of times it appears |
| Training.CountLabels | train_model.py:21 | a label is counted iff it occurs in the dataset, and its count is its total number of occurrences over all rows, repeats within a row included |
| Training.RareLabels | train_model.py:24 | the rare set holds only counted labels, and a counted label is in it iff its count is below 3; over a dataset, Training.RareIffInfrequent restates this in occurrences |
| Training.RareIffInfrequent | train_model.py:24 | a label is in the rare set iff it occurs in the dataset fewer than 3 times |
| Training.ReplaceInRow | train_model.py:27 | a row keeps its length; rare labels become "Other" and every other label is kept |
| Training.ReplaceRare | train_model.py:27 | replacement keeps the number of rows and each row's length; each position becomes "Other" if its label is rare and is otherwise unchanged |
| Training.ReplaceRareByCount | train_model.py:21-27 | with the rare set taken from the dataset's own counts, a label becomes "Other" exactly when it occurs fewer than 3 times |
| Training.ReplacedLabelsAreFrequent | train_model.py:21-27 | after replacement every label is "Other" or occurs at least 3 times in the dataset |
| Training.PreprocessLabels | train_model.py:18-27 | the processed column has one row per label string, and each row has one label per comma in its string plus one |
| Training.PreprocessLabelsByCount | train_model.py:18-27 | each processed label is the parsed, stripped label at that position, or "Other" when that label occurs fewer than 3 times over all parsed rows |
| Training.PreprocessText | train_model.py:85-86 | the normalised text has no upper-case letter and no whitespace at either end |
| Training.PreprocessTextOfPadded | train_model.py:85-86 | any stripped string with whitespace on both sides normalises to that string lowered, so the result keeps the input's content |
| Training.PreprocessTextLowersStrip | train_model.py:85-86 | normalised text is the input's stripped infix, lowered: lowering and stripping commute |
| Training.PreprocessTextIdempotent | train_model.py:85-86 | normalising twice is the same as normalising once |
| EntityExtraction.SearchFrom | entity_extraction.py:23 | the scan from a position is true iff the keyword matches with word boundaries, ignoring case, at some start position at or after it |
| EntityExtraction.Search | entity_extraction.py:23 | the search is true iff the keyword occurs in the text with a `\b` boundary right before and right after it, ignoring case |
| EntityExtraction.OccursIgnoresCase | entity_extraction.py:23 | two texts that differ only in ASCII case contain the same whole-word keywords |
| EntityExtraction.EmptyBuckets | entity_extraction.py:15-19 | the result starts with exactly the keys competitors, features and pricing_keywords, each holding an empty list |
| EntityExtraction.FirstFaulty | entity_extraction.py:21-24 | the index of the first entry whose unknown category has a matching keyword: every earlier entry is harmless, and the one at the index is faulty |
| EntityExtraction.AddKeywords | entity_extraction.py:22-24 | for a known category, the matching keywords are appended in list order; for an unknown one, the result is unchanged when nothing matches and a KeyError naming it otherwise |
| EntityExtraction.AddEntries | entity_extraction.py:21-24 | the loop over entries fails iff some entry is faulty, with the first faulty entry's category; otherwise it keeps the three keys and extends each category by what it selects |
| EntityExtraction.ExtractEntities | entity_extraction.py:14-26 | the dictionary result is an error iff some entry is faulty, naming the first; otherwise it has exactly the three keys, each holding the matching keywords of its entries in file order |
| EntityExtraction.KeywordRecordedIffOccurs | entity_extraction.py:21-24 | a keyword is recorded under a category iff it is listed under that category and occurs in the text as a whole word, ignoring case |
| EntityExtraction.MatchingMembership | entity_extraction.py:22-24 | a keyword is among one list's recorded keywords iff it is in the list and occurs in the text |
| EntityExtraction.SelectedMembership | entity_extraction.py:21-24 | a keyword is among a category's recorded keywords iff some entry of that category lists it and it occurs in the text |
| EntityExtraction.MatchingIsSubsequence | entity_extraction.py:22-24 | the recorded keywords of a list are a subsequence of that list, in the same order |
| EntityExtraction.MatchingMultiplicity | entity_extraction.py:22-24 | a keyword is recorded as many times as it is listed when it occurs, and not at all otherwise |
| EntityExtraction.SelectedOfDistinct | entity_extraction.py:21-24 | when categories are distinct, a category collects exactly the matching keywords of its own list |
| EntityExtraction.CategoryResultIsSubsequence | entity_extraction.py:21-24 | with distinct categories and no faulty entry, so that extraction succeeds, each category's result is a subsequence of its own keyword list, in the same order |
| EntityExtraction.CategoryResultMultiplicity | entity_extraction.py:21-24 | with distinct categories and no faulty entry, so that extraction succeeds, a keyword that occurs is recorded once per listing in its category, and one that does not occur is not recorded |
| EntityExtraction.ExtractEntitiesIgnoresCase | entity_extraction.py:23 | changing the ASCII case of the text does not change the dictionary result, error or not |
| EntityExtraction.ExtractNer | entity_extraction.py:29-41 | orgs, persons and locations are the texts of the ORG, PERSON and GPE-or-LOC entities, each in the recogniser's order |
| EntityExtraction.NerBucketsPartition | entity_extraction.py:33-39 | the three buckets together hold one text per entity with one of the four labels, so each entity lands in at most one bucket and there are no more texts than entities |
| EntityExtraction.OtherLabelsDropped | entity_extraction.py:33-39 | an entity with any other label leaves all three buckets unchanged |
| EntityExtraction.TextsLabelledIsSubsequence | entity_extraction.py:33-39 | each bucket is a subsequence of the entity texts, keeping the recogniser's order |
| EntityExtraction.ExtractCombined | entity_extraction.py:44-56 | the combined record is an error iff the dictionary pass is, with the same key; otherwise competitors are the dictionary competitors followed by the orgs, and the other lists are the two passes' lists |
| EntityExtraction.CombinedFromParts | entity_extraction.py:48-54 | combined competitors equal the dictionary competitors followed by the NER orgs, so their length is the sum; features, pricing keywords, persons and locations are passed on unchanged |

## Left out

- app.py as a whole. It does FastAPI routing, request parsing and artifact
  loading, and its `classify_text` only forwards to opaque scikit-learn
  objects.
- Library-backed steps of train_model.py (lines 13-15, 29-82 and 88-104):
  spreadsheet loading, TF-IDF vectorisation, multi-label binarisation,
  logistic regression, randomised search, the train/test split, artifact dumps,
  printing and `predict_labels`. These are library behaviour, randomness and
  floating-point numerics.
- Loading the spaCy model and running recognition (entity_extraction.py:7, 30).
  The recogniser's output is a parameter, a sequence of (text, label) pairs.
- Reading `domain_knowledge.json` (entity_extraction.py:10-11). The knowledge is
  a parameter. Its values are assumed to be lists of strings, as the loop needs.
- The `__main__` example at entity_extraction.py:58-62, which only prints.
- Unicode. Lower-casing and the `re.IGNORECASE` comparison cover ASCII letters
  only. `\w` covers ASCII letters, digits and `_`, and every non-ASCII character
  counts as a non-word character. `strip` removes ASCII whitespace, including
  the separators 0x1c-0x1f, which Python's `str.isspace` also treats as
  whitespace.
- Non-string values in the `labels` column. For example, pandas gives `NaN` for
  an empty cell, and `x.split` would then fail. Every row is taken to be a
  string.
- Training.ParseLabels: its contract gives the count and the shape of the
  labels. That the i-th label is the i-th comma-separated field, stripped, is
  stated by Training.ParseLabelsOfJoin, not by ParseLabels itself.
- The key order of the returned dictionaries, which matters only for JSON
  serialisation. Results are a map and records with named fields.

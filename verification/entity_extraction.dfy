/** Entity extraction: a dictionary pass that records every keyword of a
    domain-knowledge file found in the text as a whole word, a bucketing
    pass over the entities a named-entity recogniser reports, and the merge
    of both into one record. The knowledge file and the recogniser are
    parameters: the knowledge as its categories in file order, each with its
    keyword list, and the recogniser's output as (text, label) pairs. */
module EntityExtraction {
  import opened Text

  // ---------------------------------------------------------------------
  // Whole-word, case-insensitive search for the literal keyword: a match
  // must start and end at a word boundary.
  // ---------------------------------------------------------------------

  /** Position `p` holds a word character; positions outside the text do not. */
  predicate IsWordAt(text: string, p: int) {
    0 <= p < |text| && IsWordChar(text[p])
  }

  /** `\b` at position `p`: a word character on exactly one side. */
  predicate IsBoundary(text: string, p: int) {
    IsWordAt(text, p - 1) != IsWordAt(text, p)
  }

  /** Equal once both sides are lowered, as `re.IGNORECASE` compares. */
  predicate SameIgnoringCase(a: string, b: string) {
    |a| == |b| && forall k :: 0 <= k < |a| ==> Lower(a[k]) == Lower(b[k])
  }

  /** The escaped keyword, bracketed by `\b`, matches the text at `p`. */
  predicate MatchesAt(text: string, keyword: string, p: int) {
    && 0 <= p && p + |keyword| <= |text|
    && IsBoundary(text, p)
    && IsBoundary(text, p + |keyword|)
    && SameIgnoringCase(text[p..p + |keyword|], keyword)
  }

  /** The keyword occurs in the text as a whole word, ignoring case. */
  ghost predicate Occurs(text: string, keyword: string) {
    exists p :: MatchesAt(text, keyword, p)
  }

  /** Scans the start positions from `p` on, left to right. */
  function SearchFrom(text: string, keyword: string, p: nat): (found: bool)
    ensures found <==> exists q :: p <= q && MatchesAt(text, keyword, q)
    decreases |text| - p
  {
    if p + |keyword| > |text| then false
    else MatchesAt(text, keyword, p) || SearchFrom(text, keyword, p + 1)
  }

  /** `re.search(...)` is truthy exactly when the keyword occurs. */
  function Search(text: string, keyword: string): (found: bool)
    ensures found <==> Occurs(text, keyword)
  {
    SearchFrom(text, keyword, 0)
  }

  /** Texts that differ only in ASCII case have the same word characters
      and the same lowered characters, so they match at the same places. */
  lemma {:induction false} OccursIgnoresCase(t1: string, t2: string, keyword: string)
    requires ToLower(t1) == ToLower(t2)
    ensures Occurs(t1, keyword) <==> Occurs(t2, keyword)
  {
    assert |t1| == |t2|;
    forall p | 0 <= p < |t1|
      ensures IsWordAt(t1, p) == IsWordAt(t2, p)
    {
      assert Lower(t1[p]) == ToLower(t1)[p] == ToLower(t2)[p] == Lower(t2[p]);
    }
    forall p | MatchesAt(t1, keyword, p)
      ensures MatchesAt(t2, keyword, p)
    {
      forall k | 0 <= k < |keyword|
        ensures Lower(t2[p..p + |keyword|][k]) == Lower(keyword[k])
      {
        assert Lower(t1[p + k]) == ToLower(t1)[p + k] == ToLower(t2)[p + k] == Lower(t2[p + k]);
      }
    }
    forall p | MatchesAt(t2, keyword, p)
      ensures MatchesAt(t1, keyword, p)
    {
      forall k | 0 <= k < |keyword|
        ensures Lower(t1[p..p + |keyword|][k]) == Lower(keyword[k])
      {
        assert Lower(t1[p + k]) == ToLower(t1)[p + k] == ToLower(t2)[p + k] == Lower(t2[p + k]);
      }
    }
  }

  // ---------------------------------------------------------------------
  // Dictionary extraction (extract_entities)
  // ---------------------------------------------------------------------

  const Competitors: string := "competitors"
  const Features: string := "features"
  const PricingKeywords: string := "pricing_keywords"

  /** The keys of the dictionary result. */
  const Categories: set<string> := {Competitors, Features, PricingKeywords}

  /** The domain knowledge: the items of the dictionary loaded from the
      knowledge file, in file order, each a category with its keyword list.
      Loading keeps one entry per key, so the categories are distinct
      (`DistinctCategories`); the functions below do not rely on it. */
  type Knowledge = seq<(string, seq<string>)>

  /** The dictionary result: category name to recorded keywords. */
  type Buckets = map<string, seq<string>>

  /** A value, or the `KeyError` raised by indexing the result with a
      category it does not have. */
  datatype Result<T> = Ok(value: T) | KeyError(key: string)

  /** The result before any keyword is looked at. */
  function EmptyBuckets(): (b: Buckets)
    ensures b.Keys == Categories
    ensures forall c :: c in b ==> b[c] == []
  {
    map[Competitors := [], Features := [], PricingKeywords := []]
  }

  /** The keywords of a list that occur in the text, in list order, each as
      often as it is listed. */
  ghost function Matching(text: string, keywords: seq<string>): seq<string>
  {
    if keywords == [] then []
    else (if Occurs(text, keywords[0]) then [keywords[0]] else []) + Matching(text, keywords[1..])
  }

  /** What a category collects over the whole knowledge file: the matching
      keywords of every entry for that category, in file order. */
  ghost function Selected(text: string, knowledge: Knowledge, category: string): seq<string>
  {
    if knowledge == [] then []
    else (if knowledge[0].0 == category then Matching(text, knowledge[0].1) else [])
         + Selected(text, knowledge[1..], category)
  }

  /** An entry whose category is not a key of the result and one of whose
      keywords matches: appending that keyword raises `KeyError`. */
  ghost predicate Faulty(text: string, entry: (string, seq<string>)) {
    entry.0 !in Categories && Matching(text, entry.1) != []
  }

  /** The index of the first faulty entry, or the number of entries when
      there is none. */
  ghost function FirstFaulty(text: string, knowledge: Knowledge): (n: nat)
    ensures n <= |knowledge|
    ensures n < |knowledge| ==> Faulty(text, knowledge[n])
    ensures forall j :: 0 <= j < n ==> !Faulty(text, knowledge[j])
  {
    if knowledge == [] then 0
    else if Faulty(text, knowledge[0]) then 0
    else
      var n := FirstFaulty(text, knowledge[1..]);
      assert forall j :: 1 <= j < n + 1 ==> knowledge[j] == knowledge[1..][j - 1];
      n + 1
  }

  /** The inner loop over one category's keywords: each keyword found in
      the text is appended to that category's list, and the first one found
      for a category the result lacks raises `KeyError`. */
  function AddKeywords(text: string, buckets: Buckets, category: string, keywords: seq<string>): (r: Result<Buckets>)
    ensures category in buckets ==> r == Ok(buckets[category := buckets[category] + Matching(text, keywords)])
    ensures category !in buckets && Matching(text, keywords) == [] ==> r == Ok(buckets)
    ensures category !in buckets && Matching(text, keywords) != [] ==> r == KeyError(category)
    decreases |keywords|
  {
    if keywords == [] then
      assert category in buckets ==> buckets[category] + [] == buckets[category];
      assert category in buckets ==> buckets[category := buckets[category]] == buckets;
      Ok(buckets)
    else if !Search(text, keywords[0]) then
      assert [] + Matching(text, keywords[1..]) == Matching(text, keywords[1..]);
      AddKeywords(text, buckets, category, keywords[1..])
    else if category !in buckets then KeyError(category)
    else
      var added := buckets[category := buckets[category] + [keywords[0]]];
      assert Matching(text, keywords) == [keywords[0]] + Matching(text, keywords[1..]);
      assert added[category] + Matching(text, keywords[1..]) == buckets[category] + Matching(text, keywords);
      assert added[category := added[category] + Matching(text, keywords[1..])]
          == buckets[category := buckets[category] + Matching(text, keywords)];
      AddKeywords(text, added, category, keywords[1..])
  }

  /** The outer loop over the knowledge entries, from a result that has
      exactly the three keys: it fails at the first faulty entry, and
      otherwise extends every category by what it selects. */
  function AddEntries(text: string, buckets: Buckets, knowledge: Knowledge): (r: Result<Buckets>)
    requires buckets.Keys == Categories
    ensures r.Ok? <==> FirstFaulty(text, knowledge) == |knowledge|
    ensures r.KeyError? ==> FirstFaulty(text, knowledge) < |knowledge|
                            && r.key == knowledge[FirstFaulty(text, knowledge)].0
    ensures r.Ok? ==> r.value.Keys == Categories
    ensures r.Ok? ==> forall c :: c in r.value ==> r.value[c] == buckets[c] + Selected(text, knowledge, c)
    decreases |knowledge|
  {
    if knowledge == [] then Ok(buckets)
    else
      var entry := knowledge[0];
      var rest := knowledge[1..];
      match AddKeywords(text, buckets, entry.0, entry.1)
      case KeyError(c) =>
        assert Faulty(text, entry) && entry.0 == c;
        KeyError(c)
      case Ok(next) =>
        assert !Faulty(text, entry) && next.Keys == Categories by {
          if entry.0 !in Categories {
            assert Matching(text, entry.1) == [];
          }
        }
        assert FirstFaulty(text, knowledge) == FirstFaulty(text, rest) + 1;
        var r := AddEntries(text, next, rest);
        assert r.KeyError? ==> rest[FirstFaulty(text, rest)] == knowledge[FirstFaulty(text, knowledge)];
        assert r.Ok? ==> forall c :: c in r.value ==> r.value[c] == buckets[c] + Selected(text, knowledge, c) by {
          if r.Ok? {
            forall c | c in r.value
              ensures r.value[c] == buckets[c] + Selected(text, knowledge, c)
            {
              assert next[c] == buckets[c] + (if entry.0 == c then Matching(text, entry.1) else []);
              SelectedStep(text, knowledge, c, buckets[c], next[c], r.value[c]);
            }
          }
        }
        r
  }

  /** One entry's worth of `Selected`: what the first entry adds to a
      category, followed by what the rest of the file adds. */
  lemma {:induction false} SelectedStep(text: string, knowledge: Knowledge, category: string, before: seq<string>, mid: seq<string>, after: seq<string>)
    requires knowledge != []
    requires mid == before + (if knowledge[0].0 == category then Matching(text, knowledge[0].1) else [])
    requires after == mid + Selected(text, knowledge[1..], category)
    ensures after == before + Selected(text, knowledge, category)
  {
    var head := if knowledge[0].0 == category then Matching(text, knowledge[0].1) else [];
    assert before + head + Selected(text, knowledge[1..], category)
        == before + (head + Selected(text, knowledge[1..], category));
  }

  /** `extract_entities(text, knowledge)`: an error exactly when some entry
      is faulty, naming the category of the first one; otherwise a result
      with exactly the three keys, each holding what its category selects. */
  function ExtractEntities(text: string, knowledge: Knowledge): (r: Result<Buckets>)
    ensures r.Ok? <==> forall i :: 0 <= i < |knowledge| ==> !Faulty(text, knowledge[i])
    ensures r.KeyError? ==> FirstFaulty(text, knowledge) < |knowledge|
                            && r.key == knowledge[FirstFaulty(text, knowledge)].0
    ensures r.Ok? ==> r.value.Keys == Categories
    ensures r.Ok? ==> forall c :: c in r.value ==> r.value[c] == Selected(text, knowledge, c)
  {
    var r := AddEntries(text, EmptyBuckets(), knowledge);
    assert r.Ok? ==> forall c :: c in r.value ==> r.value[c] == Selected(text, knowledge, c) by {
      if r.Ok? {
        forall c | c in r.value
          ensures r.value[c] == Selected(text, knowledge, c)
        {
          assert [] + Selected(text, knowledge, c) == Selected(text, knowledge, c);
        }
      }
    }
    r
  }

  /** A keyword is recorded under a category exactly when the knowledge
      lists it under that category and it occurs in the text. */
  lemma {:induction false} KeywordRecordedIffOccurs(text: string, knowledge: Knowledge, category: string, keyword: string)
    requires ExtractEntities(text, knowledge).Ok?
    requires category in Categories
    ensures keyword in ExtractEntities(text, knowledge).value[category] <==>
            Occurs(text, keyword) && exists i :: 0 <= i < |knowledge| && knowledge[i].0 == category && keyword in knowledge[i].1
  {
    SelectedMembership(text, knowledge, category, keyword);
  }

  lemma {:induction false} MatchingMembership(text: string, keywords: seq<string>, keyword: string)
    ensures keyword in Matching(text, keywords) <==> keyword in keywords && Occurs(text, keyword)
  {
    if keywords != [] {
      MatchingMembership(text, keywords[1..], keyword);
      assert keywords == [keywords[0]] + keywords[1..];
    }
  }

  lemma {:induction false} SelectedMembership(text: string, knowledge: Knowledge, category: string, keyword: string)
    ensures keyword in Selected(text, knowledge, category) <==>
            Occurs(text, keyword) && exists i :: 0 <= i < |knowledge| && knowledge[i].0 == category && keyword in knowledge[i].1
  {
    if knowledge != [] {
      SelectedMembership(text, knowledge[1..], category, keyword);
      MatchingMembership(text, knowledge[0].1, keyword);
      assert forall i :: 1 <= i < |knowledge| ==> knowledge[i] == knowledge[1..][i - 1];
      if Occurs(text, keyword) && keyword !in Selected(text, knowledge[1..], category) {
        if i :| 0 <= i < |knowledge| && knowledge[i].0 == category && keyword in knowledge[i].1 {
          assert i == 0;
        }
      }
    }
  }

  /** `a` is `b` with some elements left out, the rest kept in order. */
  predicate IsSubsequence<T(==)>(a: seq<T>, b: seq<T>)
    decreases |b|
  {
    if a == [] then true
    else if b == [] then false
    else if a[0] == b[0] then IsSubsequence(a[1..], b[1..])
    else IsSubsequence(a, b[1..])
  }

  lemma {:induction false} MatchingIsSubsequence(text: string, keywords: seq<string>)
    ensures IsSubsequence(Matching(text, keywords), keywords)
  {
    if keywords != [] {
      MatchingIsSubsequence(text, keywords[1..]);
      var rest := Matching(text, keywords[1..]);
      if Occurs(text, keywords[0]) {
        assert ([keywords[0]] + rest)[1..] == rest;
      } else {
        assert [] + rest == rest;
        SubsequenceOfLonger(rest, keywords[0], keywords[1..]);
        assert [keywords[0]] + keywords[1..] == keywords;
      }
    }
  }

  /** A keyword listed several times is recorded as many times, or not at
      all. */
  lemma {:induction false} MatchingMultiplicity(text: string, keywords: seq<string>, keyword: string)
    ensures multiset(Matching(text, keywords))[keyword] ==
            (if Occurs(text, keyword) then multiset(keywords)[keyword] else 0)
  {
    if keywords != [] {
      MatchingMultiplicity(text, keywords[1..], keyword);
      assert keywords == [keywords[0]] + keywords[1..];
    }
  }

  /** No category is listed twice, as in a JSON object loaded into a dict. */
  predicate DistinctCategories(knowledge: Knowledge) {
    forall i, j :: 0 <= i < j < |knowledge| ==> knowledge[i].0 != knowledge[j].0
  }

  lemma {:induction false} SelectedOfDistinct(text: string, knowledge: Knowledge, i: nat)
    requires DistinctCategories(knowledge)
    requires i < |knowledge|
    ensures Selected(text, knowledge, knowledge[i].0) == Matching(text, knowledge[i].1)
  {
    var c := knowledge[i].0;
    if i == 0 {
      SelectedAbsent(text, knowledge[1..], c);
      assert Matching(text, knowledge[0].1) + [] == Matching(text, knowledge[0].1);
    } else {
      SelectedOfDistinct(text, knowledge[1..], i - 1);
    }
  }

  lemma {:induction false} SelectedAbsent(text: string, knowledge: Knowledge, category: string)
    requires forall i :: 0 <= i < |knowledge| ==> knowledge[i].0 != category
    ensures Selected(text, knowledge, category) == []
  {
    if knowledge != [] {
      SelectedAbsent(text, knowledge[1..], category);
    }
  }

  /** With distinct categories and no faulty entry (so the extraction
      succeeds), each category's result keeps its own keyword list's order:
      it is a subsequence of that list. */
  lemma {:induction false} CategoryResultIsSubsequence(text: string, knowledge: Knowledge, i: nat)
    requires DistinctCategories(knowledge)
    requires i < |knowledge| && knowledge[i].0 in Categories
    requires forall j :: 0 <= j < |knowledge| ==> !Faulty(text, knowledge[j])
    ensures IsSubsequence(ExtractEntities(text, knowledge).value[knowledge[i].0], knowledge[i].1)
  {
    SelectedOfDistinct(text, knowledge, i);
    MatchingIsSubsequence(text, knowledge[i].1);
  }

  /** With distinct categories, a keyword that occurs is recorded once per
      listing in its category's list, and one that does not is not recorded. */
  lemma {:induction false} CategoryResultMultiplicity(text: string, knowledge: Knowledge, i: nat, keyword: string)
    requires DistinctCategories(knowledge)
    requires i < |knowledge| && knowledge[i].0 in Categories
    requires forall j :: 0 <= j < |knowledge| ==> !Faulty(text, knowledge[j])
    ensures multiset(ExtractEntities(text, knowledge).value[knowledge[i].0])[keyword] ==
            (if Occurs(text, keyword) then multiset(knowledge[i].1)[keyword] else 0)
  {
    SelectedOfDistinct(text, knowledge, i);
    MatchingMultiplicity(text, knowledge[i].1, keyword);
  }

  lemma {:induction false} MatchingIgnoresCase(t1: string, t2: string, keywords: seq<string>)
    requires ToLower(t1) == ToLower(t2)
    ensures Matching(t1, keywords) == Matching(t2, keywords)
  {
    if keywords != [] {
      OccursIgnoresCase(t1, t2, keywords[0]);
      MatchingIgnoresCase(t1, t2, keywords[1..]);
    }
  }

  lemma {:induction false} AddEntriesIgnoresCase(t1: string, t2: string, buckets: Buckets, knowledge: Knowledge)
    requires ToLower(t1) == ToLower(t2)
    requires buckets.Keys == Categories
    ensures AddEntries(t1, buckets, knowledge) == AddEntries(t2, buckets, knowledge)
    decreases |knowledge|
  {
    if knowledge != [] {
      MatchingIgnoresCase(t1, t2, knowledge[0].1);
      var r := AddKeywords(t1, buckets, knowledge[0].0, knowledge[0].1);
      assert r == AddKeywords(t2, buckets, knowledge[0].0, knowledge[0].1);
      if r.Ok? {
        AddEntriesIgnoresCase(t1, t2, r.value, knowledge[1..]);
      }
    }
  }

  /** The dictionary result depends on the text only up to ASCII case: the
      same knowledge gives the same result, error or not. */
  lemma {:induction false} ExtractEntitiesIgnoresCase(t1: string, t2: string, knowledge: Knowledge)
    requires ToLower(t1) == ToLower(t2)
    ensures ExtractEntities(t1, knowledge) == ExtractEntities(t2, knowledge)
  {
    AddEntriesIgnoresCase(t1, t2, EmptyBuckets(), knowledge);
  }

  // ---------------------------------------------------------------------
  // Named-entity bucketing (extract_ner_entities)
  // ---------------------------------------------------------------------

  /** One recognised entity: its text and its label (`ent.label_`). */
  datatype Entity = Entity(text: string, kind: string)

  /** The three buckets of the named-entity result. */
  datatype NerEntities = NerEntities(orgs: seq<string>, persons: seq<string>, locations: seq<string>)

  const OrgLabels: set<string> := {"ORG"}
  const PersonLabels: set<string> := {"PERSON"}
  const LocationLabels: set<string> := {"GPE", "LOC"}

  /** The texts of the entities whose label is in `labels`, in order. */
  function TextsLabelled(entities: seq<Entity>, labels: set<string>): seq<string>
  {
    if entities == [] then []
    else (if entities[0].kind in labels then [entities[0].text] else [])
         + TextsLabelled(entities[1..], labels)
  }

  lemma {:induction false} TextsLabelledAppend(entities: seq<Entity>, e: Entity, labels: set<string>)
    ensures TextsLabelled(entities + [e], labels) ==
            TextsLabelled(entities, labels) + (if e.kind in labels then [e.text] else [])
  {
    if entities == [] {
      assert [] + [e] == [e];
    } else {
      assert (entities + [e])[1..] == entities[1..] + [e];
      TextsLabelledAppend(entities[1..], e, labels);
    }
  }

  /** `extract_ner_entities`: the entities in the order the recogniser
      reports them, each appended to the bucket its label selects. */
  function ExtractNer(entities: seq<Entity>): (ner: NerEntities)
    ensures ner.orgs == TextsLabelled(entities, OrgLabels)
    ensures ner.persons == TextsLabelled(entities, PersonLabels)
    ensures ner.locations == TextsLabelled(entities, LocationLabels)
  {
    if entities == [] then NerEntities([], [], [])
    else
      var front := entities[..|entities| - 1];
      var e := entities[|entities| - 1];
      assert entities == front + [e];
      TextsLabelledAppend(front, e, OrgLabels);
      TextsLabelledAppend(front, e, PersonLabels);
      TextsLabelledAppend(front, e, LocationLabels);
      var ner := ExtractNer(front);
      if e.kind == "ORG" then ner.(orgs := ner.orgs + [e.text])
      else if e.kind == "PERSON" then ner.(persons := ner.persons + [e.text])
      else if e.kind in ["GPE", "LOC"] then ner.(locations := ner.locations + [e.text])
      else ner
  }

  lemma {:induction false} TextsLabelledUnion(entities: seq<Entity>, a: set<string>, b: set<string>)
    requires a !! b
    ensures |TextsLabelled(entities, a + b)| == |TextsLabelled(entities, a)| + |TextsLabelled(entities, b)|
  {
    if entities != [] {
      TextsLabelledUnion(entities[1..], a, b);
    }
  }

  lemma {:induction false} TextsLabelledBound(entities: seq<Entity>, labels: set<string>)
    ensures |TextsLabelled(entities, labels)| <= |entities|
  {
    if entities != [] {
      TextsLabelledBound(entities[1..], labels);
    }
  }

  /** Every entity lands in at most one bucket: the buckets together hold one
      text per entity with one of the four labels, and no more texts than
      there are entities. */
  lemma {:induction false} NerBucketsPartition(entities: seq<Entity>)
    ensures var ner := ExtractNer(entities);
            && |ner.orgs| + |ner.persons| + |ner.locations|
               == |TextsLabelled(entities, OrgLabels + PersonLabels + LocationLabels)|
            && |ner.orgs| + |ner.persons| + |ner.locations| <= |entities|
  {
    TextsLabelledUnion(entities, OrgLabels, PersonLabels);
    TextsLabelledUnion(entities, OrgLabels + PersonLabels, LocationLabels);
    TextsLabelledBound(entities, OrgLabels + PersonLabels + LocationLabels);
  }

  /** An entity with any other label is dropped. */
  lemma {:induction false} OtherLabelsDropped(entities: seq<Entity>, e: Entity)
    requires e.kind !in OrgLabels + PersonLabels + LocationLabels
    ensures ExtractNer(entities + [e]) == ExtractNer(entities)
  {
    TextsLabelledAppend(entities, e, OrgLabels);
    TextsLabelledAppend(entities, e, PersonLabels);
    TextsLabelledAppend(entities, e, LocationLabels);
  }

  /** The texts of all entities, in order. */
  function Texts(entities: seq<Entity>): seq<string>
  {
    if entities == [] then [] else [entities[0].text] + Texts(entities[1..])
  }

  /** Each bucket keeps the recogniser's order. */
  lemma {:induction false} TextsLabelledIsSubsequence(entities: seq<Entity>, labels: set<string>)
    ensures IsSubsequence(TextsLabelled(entities, labels), Texts(entities))
  {
    if entities != [] {
      TextsLabelledIsSubsequence(entities[1..], labels);
      var rest := TextsLabelled(entities[1..], labels);
      if entities[0].kind in labels {
        assert ([entities[0].text] + rest)[1..] == rest;
      } else {
        assert [] + rest == rest;
        SubsequenceOfLonger(rest, entities[0].text, Texts(entities[1..]));
      }
    }
  }

  lemma {:induction false} SubsequenceOfLonger<T>(a: seq<T>, x: T, b: seq<T>)
    requires IsSubsequence(a, b)
    ensures IsSubsequence(a, [x] + b)
    decreases |b|, 1
  {
    if a != [] && a[0] == x {
      assert ([x] + b)[1..] == b;
      SubsequenceDropFirst(a, b);
    } else {
      assert ([x] + b)[1..] == b;
    }
  }

  lemma {:induction false} SubsequenceDropFirst<T>(a: seq<T>, b: seq<T>)
    requires a != []
    requires IsSubsequence(a, b)
    ensures IsSubsequence(a[1..], b)
    decreases |b|, 0
  {
    if a[0] != b[0] {
      SubsequenceDropFirst(a, b[1..]);
      SubsequenceOfLonger(a[1..], b[0], b[1..]);
      assert [b[0]] + b[1..] == b;
    } else {
      SubsequenceOfLonger(a[1..], b[0], b[1..]);
      assert [b[0]] + b[1..] == b;
    }
  }

  // ---------------------------------------------------------------------
  // The combined record (extract_combined_entities)
  // ---------------------------------------------------------------------

  /** The five lists of the combined response. */
  datatype CombinedEntities = CombinedEntities(
    competitors: seq<string>,
    features: seq<string>,
    pricingKeywords: seq<string>,
    persons: seq<string>,
    locations: seq<string>)

  /** `extract_combined_entities(text)`, with the loaded knowledge and the
      recogniser's entities for the text as parameters. The dictionary
      pass's error passes through; otherwise the organisations follow the
      dictionary competitors and every other list is passed on as it is. */
  function ExtractCombined(text: string, knowledge: Knowledge, entities: seq<Entity>): (r: Result<CombinedEntities>)
    ensures r.Ok? <==> forall i :: 0 <= i < |knowledge| ==> !Faulty(text, knowledge[i])
    ensures r.KeyError? ==> ExtractEntities(text, knowledge) == KeyError(r.key)
    ensures r.Ok? ==>
              && r.value.competitors == Selected(text, knowledge, Competitors) + TextsLabelled(entities, OrgLabels)
              && r.value.features == Selected(text, knowledge, Features)
              && r.value.pricingKeywords == Selected(text, knowledge, PricingKeywords)
              && r.value.persons == TextsLabelled(entities, PersonLabels)
              && r.value.locations == TextsLabelled(entities, LocationLabels)
  {
    match ExtractEntities(text, knowledge)
    case KeyError(c) => KeyError(c)
    case Ok(found) =>
      var ner := ExtractNer(entities);
      Ok(CombinedEntities(
        found[Competitors] + ner.orgs,
        found[Features],
        found[PricingKeywords],
        ner.persons,
        ner.locations))
  }

  /** The combined competitors are the dictionary competitors followed by
      the recognised organisations, so there are as many as both together;
      the other lists are the passes' own lists, unchanged. */
  lemma {:induction false} CombinedFromParts(text: string, knowledge: Knowledge, entities: seq<Entity>)
    requires ExtractEntities(text, knowledge).Ok?
    ensures var found := ExtractEntities(text, knowledge).value;
            var ner := ExtractNer(entities);
            var combined := ExtractCombined(text, knowledge, entities);
            && combined.Ok?
            && combined.value.competitors == found[Competitors] + ner.orgs
            && |combined.value.competitors| == |found[Competitors]| + |ner.orgs|
            && combined.value.features == found[Features]
            && combined.value.pricingKeywords == found[PricingKeywords]
            && combined.value.persons == ner.persons
            && combined.value.locations == ner.locations
  {
  }
}

/** The label preparation of the training script: each row's label string is
    split on commas and stripped, labels are counted over the whole dataset,
    and labels seen fewer than three times are replaced by "Other". Also the
    text normalisation applied before prediction. Loading the spreadsheet,
    vectorising, fitting and evaluating the classifier are not modelled. */
module Training {
  import opened Text

  /** The character `labels` strings are split on. */
  const Separator: char := ','

  /** A label seen fewer than this many times in the dataset is rare. */
  const RareThreshold: nat := 3

  /** What a rare label is replaced by. */
  const OtherLabel: string := "Other"

  /** Python's `sep.join(pieces)`. */
  function Join(pieces: seq<string>, sep: char): string
  {
    if |pieces| == 0 then ""
    else if |pieces| == 1 then pieces[0]
    else pieces[0] + [sep] + Join(pieces[1..], sep)
  }

  /** Python's `s.split(sep)` for a one-character separator. */
  function Split(s: string, sep: char): (pieces: seq<string>)
    ensures |pieces| > 0
  {
    if |s| == 0 then [""]
    else
      var rest := Split(s[1..], sep);
      if s[0] == sep then [""] + rest
      else [[s[0]] + rest[0]] + rest[1..]
  }

  /** One piece per separator, plus one. */
  lemma {:induction false} SplitCount(s: string, sep: char)
    ensures |Split(s, sep)| == multiset(s)[sep] + 1
  {
    if |s| > 0 {
      SplitCount(s[1..], sep);
      assert s == [s[0]] + s[1..];
    }
  }

  /** No piece contains the separator. */
  lemma {:induction false} SplitPiecesLackSeparator(s: string, sep: char)
    ensures forall i :: 0 <= i < |Split(s, sep)| ==> sep !in Split(s, sep)[i]
  {
    if |s| > 0 {
      SplitPiecesLackSeparator(s[1..], sep);
      var rest := Split(s[1..], sep);
      if s[0] != sep {
        var pieces := Split(s, sep);
        assert forall i :: 1 <= i < |pieces| ==> pieces[i] == rest[i];
      }
    }
  }

  /** Joining the pieces back with the separator gives the string that was
      split. */
  lemma {:induction false} JoinSplit(s: string, sep: char)
    ensures Join(Split(s, sep), sep) == s
  {
    if |s| > 0 {
      JoinSplit(s[1..], sep);
      var rest := Split(s[1..], sep);
      if s[0] == sep {
        assert Join([""] + rest, sep) == "" + [sep] + Join(rest, sep);
        assert s == [sep] + s[1..];
      } else {
        var pieces := [[s[0]] + rest[0]] + rest[1..];
        assert pieces[1..] == rest[1..];
        if |rest| == 1 {
          assert Join(pieces, sep) == [s[0]] + rest[0];
        } else {
          assert Join(rest, sep) == rest[0] + [sep] + Join(rest[1..], sep);
          assert Join(pieces, sep) == [s[0]] + rest[0] + [sep] + Join(rest[1..], sep);
        }
        assert s == [s[0]] + s[1..];
      }
    }
  }

  lemma {:induction false} SplitWithoutSeparator(p: string, sep: char)
    requires sep !in p
    ensures Split(p, sep) == [p]
    decreases |p|
  {
    if |p| > 0 {
      SplitWithoutSeparator(p[1..], sep);
      assert [p[0]] + p[1..] == p;
    }
  }

  lemma {:induction false} SplitAfterPiece(p: string, sep: char, t: string)
    requires sep !in p
    ensures Split(p + [sep] + t, sep) == [p] + Split(t, sep)
    decreases |p|
  {
    var s := p + [sep] + t;
    if |p| == 0 {
      assert s[1..] == t;
    } else {
      assert s[1..] == p[1..] + [sep] + t;
      SplitAfterPiece(p[1..], sep, t);
      assert [p[0]] + p[1..] == p;
    }
  }

  /** Splitting undoes joining, for pieces that do not contain the
      separator: with `JoinSplit`, split and join are inverse. */
  lemma {:induction false} SplitJoin(pieces: seq<string>, sep: char)
    requires |pieces| > 0
    requires forall i :: 0 <= i < |pieces| ==> sep !in pieces[i]
    ensures Split(Join(pieces, sep), sep) == pieces
  {
    if |pieces| == 1 {
      SplitWithoutSeparator(pieces[0], sep);
    } else {
      SplitJoin(pieces[1..], sep);
      SplitAfterPiece(pieces[0], sep, Join(pieces[1..], sep));
    }
  }

  /** One row's label list: the row's string split at every comma, each
      piece with its surrounding whitespace removed. */
  function ParseLabels(raw: string): (labels: seq<string>)
    ensures |labels| == multiset(raw)[Separator] + 1
    ensures forall i :: 0 <= i < |labels| ==> IsStripped(labels[i]) && Separator !in labels[i]
  {
    var pieces := Split(raw, Separator);
    SplitCount(raw, Separator);
    SplitPiecesLackSeparator(raw, Separator);
    var labels := seq(|pieces|, i requires 0 <= i < |pieces| => Strip(pieces[i]));
    assert forall i :: 0 <= i < |pieces| ==> Separator !in labels[i] by {
      forall i | 0 <= i < |pieces|
        ensures Separator !in labels[i]
      {
        var k := StripStart(pieces[i]);
        assert labels[i] == pieces[i][k..k + |labels[i]|];
      }
    }
    labels
  }

  /** Parsing keeps the order of the comma-separated fields: a row written as
      fields joined by commas parses to those fields, each stripped. */
  lemma {:induction false} ParseLabelsOfJoin(fields: seq<string>)
    requires |fields| > 0
    requires forall i :: 0 <= i < |fields| ==> Separator !in fields[i]
    ensures |ParseLabels(Join(fields, Separator))| == |fields|
    ensures forall i :: 0 <= i < |fields| ==> ParseLabels(Join(fields, Separator))[i] == Strip(fields[i])
  {
    SplitJoin(fields, Separator);
  }

  /** `df['label_list']`: the parsed label list of every row. */
  function LabelLists(raws: seq<string>): (rows: seq<seq<string>>)
    ensures |rows| == |raws|
    ensures forall i :: 0 <= i < |raws| ==> rows[i] == ParseLabels(raws[i])
  {
    seq(|raws|, i requires 0 <= i < |raws| => ParseLabels(raws[i]))
  }

  /** All labels of all rows, row after row. */
  function Flatten(rows: seq<seq<string>>): seq<string>
  {
    if rows == [] then [] else rows[0] + Flatten(rows[1..])
  }

  /** The number of times `label` occurs in the dataset, counted row by row,
      repeats within a row included. */
  function Occurrences(rows: seq<seq<string>>, l: string): nat
  {
    if rows == [] then 0 else multiset(rows[0])[l] + Occurrences(rows[1..], l)
  }

  lemma {:induction false} FlattenCounts(rows: seq<seq<string>>, l: string)
    ensures multiset(Flatten(rows))[l] == Occurrences(rows, l)
  {
    if rows != [] {
      FlattenCounts(rows[1..], l);
    }
  }

  /** A label that appears in some row occurs at least once. */
  lemma {:induction false} OccursInRow(rows: seq<seq<string>>, i: nat, j: nat)
    requires i < |rows| && j < |rows[i]|
    ensures Occurrences(rows, rows[i][j]) > 0
  {
    if i == 0 {
      assert rows[0][j] in multiset(rows[0]);
    } else {
      OccursInRow(rows[1..], i - 1, j);
    }
  }

  /** `collections.Counter(labels)`: one entry per distinct label, holding the
      number of times it occurs. */
  function Tally(labels: seq<string>): (counts: map<string, nat>)
    ensures forall l :: l in counts <==> l in labels
    ensures forall l :: l in counts ==> counts[l] == multiset(labels)[l]
  {
    if labels == [] then map[]
    else
      var front := labels[..|labels| - 1];
      var l := labels[|labels| - 1];
      assert labels == front + [l];
      var counts := Tally(front);
      counts[l := if l in counts then counts[l] + 1 else 1]
  }

  /** `label_counter`: the dataset's label counts. */
  function CountLabels(rows: seq<seq<string>>): (counts: map<string, nat>)
    ensures forall l :: l in counts <==> Occurrences(rows, l) > 0
    ensures forall l :: l in counts ==> counts[l] == Occurrences(rows, l)
  {
    var flat := Flatten(rows);
    forall l
      ensures multiset(flat)[l] == Occurrences(rows, l)
    {
      FlattenCounts(rows, l);
    }
    Tally(flat)
  }

  /** `rare_labels`: the counted labels whose count is below the threshold. */
  function RareLabels(counts: map<string, nat>): (rare: set<string>)
    ensures rare <= counts.Keys
    ensures forall l :: l in counts ==> (l in rare <==> counts[l] < RareThreshold)
  {
    set l | l in counts && counts[l] < RareThreshold
  }

  /** A label is rare exactly when it occurs in the dataset, but fewer than
      three times. */
  lemma {:induction false} RareIffInfrequent(rows: seq<seq<string>>, l: string)
    ensures l in RareLabels(CountLabels(rows)) <==> 0 < Occurrences(rows, l) < RareThreshold
  {
  }

  /** One row with every rare label replaced by "Other". */
  function ReplaceInRow(row: seq<string>, rare: set<string>): (out: seq<string>)
    ensures |out| == |row|
    ensures forall j :: 0 <= j < |row| && row[j] in rare ==> out[j] == OtherLabel
    ensures forall j :: 0 <= j < |row| && row[j] !in rare ==> out[j] == row[j]
  {
    if row == [] then []
    else [if row[0] in rare then OtherLabel else row[0]] + ReplaceInRow(row[1..], rare)
  }

  /** `df['processed_labels']`: rare labels replaced by "Other" in every row;
      the rows, their lengths and every other label are kept. */
  function ReplaceRare(rows: seq<seq<string>>, rare: set<string>): (out: seq<seq<string>>)
    ensures |out| == |rows|
    ensures forall i :: 0 <= i < |rows| ==> |out[i]| == |rows[i]|
    ensures forall i, j :: 0 <= i < |rows| && 0 <= j < |rows[i]| ==>
              out[i][j] == (if rows[i][j] in rare then OtherLabel else rows[i][j])
  {
    if rows == [] then []
    else [ReplaceInRow(rows[0], rare)] + ReplaceRare(rows[1..], rare)
  }

  /** Replacement decided by the dataset's own counts: a label becomes
      "Other" exactly when it occurs fewer than three times. */
  lemma {:induction false} ReplaceRareByCount(rows: seq<seq<string>>)
    ensures var out := ReplaceRare(rows, RareLabels(CountLabels(rows)));
            forall i, j :: 0 <= i < |rows| && 0 <= j < |rows[i]| ==>
              out[i][j] == (if Occurrences(rows, rows[i][j]) < RareThreshold then OtherLabel else rows[i][j])
  {
    forall i, j | 0 <= i < |rows| && 0 <= j < |rows[i]|
      ensures Occurrences(rows, rows[i][j]) > 0
    {
      OccursInRow(rows, i, j);
    }
  }

  /** After replacement every label is "Other" or occurs at least three times
      in the dataset it was counted over. */
  lemma {:induction false} ReplacedLabelsAreFrequent(rows: seq<seq<string>>)
    ensures var out := ReplaceRare(rows, RareLabels(CountLabels(rows)));
            forall i, j :: 0 <= i < |out| && 0 <= j < |out[i]| ==>
              out[i][j] == OtherLabel || Occurrences(rows, out[i][j]) >= RareThreshold
  {
    var out := ReplaceRare(rows, RareLabels(CountLabels(rows)));
    forall i, j | 0 <= i < |out| && 0 <= j < |out[i]|
      ensures out[i][j] == OtherLabel || Occurrences(rows, out[i][j]) >= RareThreshold
    {
      OccursInRow(rows, i, j);
    }
  }

  /** Lines 18-27 of the training script as one step: from the raw label
      strings to the processed label lists. Each row keeps one label per
      comma-separated field. */
  function PreprocessLabels(raws: seq<string>): (processed: seq<seq<string>>)
    ensures |processed| == |raws|
    ensures forall i :: 0 <= i < |raws| ==> |processed[i]| == multiset(raws[i])[Separator] + 1
  {
    var rows := LabelLists(raws);
    ReplaceRare(rows, RareLabels(CountLabels(rows)))
  }

  /** Each processed label is the parsed label, or "Other" when the parsed
      label occurs fewer than three times over all parsed rows. */
  lemma {:induction false} PreprocessLabelsByCount(raws: seq<string>, i: nat, j: nat)
    requires i < |raws| && j < |LabelLists(raws)[i]|
    ensures var l := LabelLists(raws)[i][j];
            PreprocessLabels(raws)[i][j] == (if Occurrences(LabelLists(raws), l) < RareThreshold then OtherLabel else l)
  {
    ReplaceRareByCount(LabelLists(raws));
  }

  /** `preprocess_text`: lower-cased, then stripped. */
  function PreprocessText(text: string): (r: string)
    ensures IsLowerCase(r)
    ensures IsStripped(r)
  {
    ToLowerIsLowerCase(text);
    StripKeepsLowerCase(ToLower(text));
    Strip(ToLower(text))
  }

  /** Normalising a stripped string with whitespace around it gives that
      string lowered, whatever the surrounding whitespace is. */
  lemma {:induction false} PreprocessTextOfPadded(a: string, m: string, b: string)
    requires AllSpace(a) && AllSpace(b) && IsStripped(m)
    ensures PreprocessText(a + m + b) == ToLower(m)
  {
    ToLowerConcat(a + m, b);
    ToLowerConcat(a, m);
    StripUnique(ToLower(a), ToLower(m), ToLower(b));
  }

  /** Lowering and stripping commute: normalised text is the input's
      stripped infix, lowered. */
  lemma {:induction false} PreprocessTextLowersStrip(text: string)
    ensures PreprocessText(text) == ToLower(Strip(text))
  {
    var k := StripStart(text);
    var m := Strip(text);
    assert text == text[..k] + m + text[k + |m|..];
    PreprocessTextOfPadded(text[..k], m, text[k + |m|..]);
  }

  /** Normalising normalised text changes nothing. */
  lemma {:induction false} PreprocessTextIdempotent(text: string)
    ensures PreprocessText(PreprocessText(text)) == PreprocessText(text)
  {
    var r := PreprocessText(text);
    ToLowerOfLowerCase(r);
    StripOfStripped(r);
    assert PreprocessText(r) == Strip(ToLower(r));
  }
}

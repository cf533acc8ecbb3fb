/** The session around the classifier (main.py:38-45, 87-101): the
    examples gathered from the form, the checks made before any call, and
    the new `category` column written into the uploaded table. The form
    widgets and the CSV parser are outside the model: their values are
    inputs. */
module App {
  import opened PyStr
  import opened Prompt
  import opened Classifier

  // ---------------------------------------------------------------------
  // Examples from the form (main.py:38-45)

  /** The examples the loop of main.py:38-42 collects: one per category, in
      category order, for each category whose text box is not empty.
      `exampleText(cat)` is what the box for `cat` holds. */
  function Collected(cats: seq<string>, exampleText: string -> string): seq<Example> {
    if |cats| == 0 then []
    else
      var cat := cats[|cats| - 1];
      Collected(cats[..|cats| - 1], exampleText) +
      (if exampleText(cat) != "" then [Example(exampleText(cat), cat)] else [])
  }

  /** The loop of main.py:38-42. */
  method CollectExamples(cats: seq<string>, exampleText: string -> string)
    returns (exs: seq<Example>)
    ensures exs == Collected(cats, exampleText)
  {
    exs := [];
    for i := 0 to |cats|
      invariant exs == Collected(cats[..i], exampleText)
    {
      var cat := cats[i];
      var example := exampleText(cat);
      assert cats[..i + 1][..i] == cats[..i];
      if example != "" {
        exs := exs + [Example(example, cat)];
      }
    }
    assert cats[..|cats|] == cats;
  }

  /** Indices of the categories whose text box is filled, in order. */
  function Filled(cats: seq<string>, exampleText: string -> string): (ps: seq<nat>)
    ensures forall j :: 0 <= j < |ps| ==> ps[j] < |cats| && exampleText(cats[ps[j]]) != ""
    ensures forall j, k :: 0 <= j < k < |ps| ==> ps[j] < ps[k]
    ensures forall i :: 0 <= i < |cats| && exampleText(cats[i]) != "" ==> i in ps
  {
    if |cats| == 0 then []
    else
      var n := |cats| - 1;
      var front := cats[..n];
      Filled(front, exampleText) + (if exampleText(cats[n]) != "" then [n] else [])
  }

  /** The examples are exactly the filled categories, in category order,
      each with its own text as the example text. */
  lemma {:induction false} CollectedInCategoryOrder(cats: seq<string>, exampleText: string -> string)
    ensures |Collected(cats, exampleText)| == |Filled(cats, exampleText)|
    ensures forall j :: 0 <= j < |Filled(cats, exampleText)| ==>
              var i := Filled(cats, exampleText)[j];
              Collected(cats, exampleText)[j] == Example(exampleText(cats[i]), cats[i])
  {
    if |cats| > 0 {
      var n := |cats| - 1;
      var front := cats[..n];
      CollectedInCategoryOrder(front, exampleText);
      var ps := Filled(front, exampleText);
      var exs := Collected(front, exampleText);
      forall j | 0 <= j < |ps|
        ensures front[ps[j]] == cats[ps[j]]
      {
      }
    }
  }

  /** At most one example per category, and one for every category exactly
      when no text box is empty: the test of main.py:44 and main.py:95. */
  lemma {:induction false} CollectedCount(cats: seq<string>, exampleText: string -> string)
    ensures |Collected(cats, exampleText)| <= |cats|
    ensures |Collected(cats, exampleText)| == |cats| <==>
              forall i :: 0 <= i < |cats| ==> exampleText(cats[i]) != ""
  {
    if |cats| > 0 {
      var n := |cats| - 1;
      var front := cats[..n];
      CollectedCount(front, exampleText);
      assert forall i :: 0 <= i < n ==> front[i] == cats[i];
    }
  }

  // ---------------------------------------------------------------------
  // The uploaded table

  /** A parsed CSV file: its header and its rows of cells. */
  datatype Table = Table(columns: seq<string>, rows: seq<seq<string>>)

  /** Every row has one cell per column, as the parser guarantees. */
  predicate Rectangular(t: Table) {
    forall r :: 0 <= r < |t.rows| ==> |t.rows[r]| == |t.columns|
  }

  /** Where a column stands in the header. */
  function ColumnIndex(columns: seq<string>, name: string): (r: Option<nat>)
    ensures r.Some? ==> r.value < |columns| && columns[r.value] == name
    ensures r.Some? ==> forall j :: 0 <= j < r.value ==> columns[j] != name
    ensures r.None? <==> name !in columns
  {
    if |columns| == 0 then None
    else if columns[0] == name then Some(0)
    else
      match ColumnIndex(columns[1..], name)
      case None => None
      case Some(k) => Some(k + 1)
  }

  /** `df[name]`: the cells of a column, row by row. */
  function Column(t: Table, name: string): (cells: seq<string>)
    requires Rectangular(t) && name in t.columns
    ensures |cells| == |t.rows|
    ensures exists k ::
              && 0 <= k < |t.columns| && t.columns[k] == name
              && (forall j :: 0 <= j < k ==> t.columns[j] != name)
              && forall r :: 0 <= r < |t.rows| ==> cells[r] == t.rows[r][k]
  {
    var k := ColumnIndex(t.columns, name).value;
    seq(|t.rows|, r requires 0 <= r < |t.rows| => t.rows[r][k])
  }

  /** `df[name] = values`: overwrites the column if the table has one, and
      appends it as the last column otherwise. */
  function AssignColumn(t: Table, name: string, values: seq<string>): (u: Table)
    requires Rectangular(t) && |values| == |t.rows|
    ensures Rectangular(u) && |u.rows| == |t.rows|
    ensures u.columns == if name in t.columns then t.columns else t.columns + [name]
  {
    match ColumnIndex(t.columns, name)
    case Some(k) =>
      Table(t.columns, seq(|t.rows|, r requires 0 <= r < |t.rows| => t.rows[r][k := values[r]]))
    case None =>
      Table(t.columns + [name], seq(|t.rows|, r requires 0 <= r < |t.rows| => t.rows[r] + [values[r]]))
  }

  /** After the assignment the column holds the new values. */
  lemma AssignColumnEffect(t: Table, name: string, values: seq<string>)
    requires Rectangular(t) && |values| == |t.rows|
    ensures Column(AssignColumn(t, name, values), name) == values
  {
    if name !in t.columns {
      ColumnIndexAfterAppend(t.columns, name, name);
    }
  }

  /** Every other column is passed through unchanged. */
  lemma AssignColumnKeepsOthers(t: Table, name: string, values: seq<string>, other: string)
    requires Rectangular(t) && |values| == |t.rows|
    requires other in t.columns && other != name
    ensures Column(AssignColumn(t, name, values), other) == Column(t, other)
  {
    if name !in t.columns {
      ColumnIndexAfterAppend(t.columns, name, other);
    }
  }

  /** Appending a column keeps the positions of the others. */
  lemma {:induction false} ColumnIndexAfterAppend(columns: seq<string>, added: string, name: string)
    requires added !in columns
    ensures ColumnIndex(columns + [added], name) ==
              if name in columns then ColumnIndex(columns, name)
              else if name == added then Some(|columns|) else None
  {
    if |columns| > 0 {
      assert (columns + [added])[1..] == columns[1..] + [added];
      ColumnIndexAfterAppend(columns[1..], added, name);
    } else {
      assert columns + [added] == [added];
    }
  }

  // ---------------------------------------------------------------------
  // One session (main.py:87-101)

  /** What the form holds: the selected categories, the token, the model
      id and the text of each category's example box. */
  datatype Settings = Settings(categories: seq<string>, token: string, modelId: string,
                               exampleText: string -> string)

  /** What the page shows at the end of the session. */
  datatype Screen =
    | AwaitingUpload          // no file uploaded (main.py:114-115)
    | MissingFeedbackColumn   // st.error and st.stop (main.py:89-91)
    | AwaitingClick           // the button was not pressed (main.py:94)
    | MissingSettings         // st.error and st.stop (main.py:95-97)
    | Classified(table: Table)

  /** The test of main.py:95. */
  predicate Ready(s: Settings, exs: seq<Example>) {
    s.token != "" && s.modelId != "" && |exs| == |s.categories|
  }

  /** One run of the page: `upload` is the parsed file if there is one,
      `clicked` whether "Classify Feedback" was pressed, and `respond(n, r)`
      the endpoint's answer to the n-th call. `warned` is the warning of
      main.py:44-45; `sent` lists the calls made, in order. */
  method Run(s: Settings, upload: Option<Table>, clicked: bool,
             respond: (nat, Request) -> Completion)
    returns (warned: bool, screen: Screen, sent: seq<Request>, labels: seq<string>)
    requires upload.Some? ==> Rectangular(upload.value)
    ensures warned <==> exists i :: 0 <= i < |s.categories| && s.exampleText(s.categories[i]) == ""
    ensures !screen.Classified? ==> sent == [] && labels == []
    ensures upload.None? ==> screen == AwaitingUpload
    ensures upload.Some? && "feedback" !in upload.value.columns ==> screen == MissingFeedbackColumn
    ensures upload.Some? && "feedback" in upload.value.columns && !clicked ==> screen == AwaitingClick
    ensures upload.Some? && "feedback" in upload.value.columns && clicked
            && !(&& s.token != "" && s.modelId != ""
                 && forall i :: 0 <= i < |s.categories| ==> s.exampleText(s.categories[i]) != "")
            ==> screen == MissingSettings
    ensures screen.Classified? <==>
              && upload.Some? && "feedback" in upload.value.columns && clicked
              && s.token != "" && s.modelId != ""
              && forall i :: 0 <= i < |s.categories| ==> s.exampleText(s.categories[i]) != ""
    ensures screen.Classified? ==>
              && |sent| == |upload.value.rows| && |labels| == |upload.value.rows|
              && screen.table == AssignColumn(upload.value, "category", labels)
              && forall i :: 0 <= i < |sent| ==>
                   && sent[i] == RequestFor(s.token, s.modelId, Column(upload.value, "feedback")[i],
                                            s.categories, Collected(s.categories, s.exampleText))
                   && labels[i] == Outcome(respond(i, sent[i]), s.categories)
  {
    var exs := CollectExamples(s.categories, s.exampleText);
    CollectedCount(s.categories, s.exampleText);
    warned := |exs| < |s.categories|;
    sent, labels := [], [];
    if upload.None? {
      screen := AwaitingUpload;
      return;
    }
    var t := upload.value;
    if "feedback" !in t.columns {
      screen := MissingFeedbackColumn;
      return;
    }
    if !clicked {
      screen := AwaitingClick;
      return;
    }
    if !Ready(s, exs) {
      screen := MissingSettings;
      return;
    }
    var feedbacks := Column(t, "feedback");
    labels, sent := BatchClassify(feedbacks, s.categories, exs, s.token, s.modelId, respond);
    RequestRows(feedbacks, s.categories, exs, s.token, s.modelId);
    screen := Classified(AssignColumn(t, "category", labels));
  }
}

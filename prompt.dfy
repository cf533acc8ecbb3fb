/** The few-shot prompt sent for one feedback text (main.py:53-59): a
    header naming the categories, one block per example in the order
    given, and the feedback itself followed by an open "Category:" cue.
    Quotes inside texts are not escaped. */
module Prompt {
  import opened PyStr

  /** One few-shot example, the `{"text": ..., "label": ...}` dictionary.
      (`label` is a Dafny keyword, hence `labelText`.) */
  datatype Example = Example(text: string, labelText: string)

  const Lead: string := "Classify the following student feedback as one of these categories: "

  /** What stands before a text in a block: `Feedback: "`. */
  const Opening: string := "Feedback: \""

  /** What stands between a text and its label: the closing quote, a line
      break and `Category: `. */
  const Middle: string := "\"\nCategory: "

  /** The header line and the blank line after it. */
  function Header(cats: seq<string>): string {
    Lead + Join(cats, ", ") + ".\n\n"
  }

  /** The block for one example. */
  function Shot(ex: Example): string {
    Opening + ex.text + Middle + ex.labelText + "\n\n"
  }

  /** The blocks for the examples, in order. */
  function Shots(exs: seq<Example>): string {
    if |exs| == 0 then "" else Shots(exs[..|exs| - 1]) + Shot(exs[|exs| - 1])
  }

  /** The closing question about the feedback to classify. */
  function Query(feedback: string): string {
    Opening + feedback + "\"\nCategory:"
  }

  /** The whole prompt. */
  function PromptText(feedback: string, cats: seq<string>, exs: seq<Example>): string {
    Header(cats) + Shots(exs) + Query(feedback)
  }

  /** Builds the prompt the way main.py:53-59 does: the header, then one
      `+=` per example, then the question. */
  method BuildPrompt(feedback: string, cats: seq<string>, exs: seq<Example>)
    returns (prompt: string)
    ensures prompt == PromptText(feedback, cats, exs)
  {
    prompt := Lead + Join(cats, ", ") + ".\n\n";
    for i := 0 to |exs|
      invariant prompt == Header(cats) + Shots(exs[..i])
    {
      var ex := exs[i];
      assert exs[..i + 1][..i] == exs[..i];
      prompt := prompt + ("Feedback: \"" + ex.text + "\"\nCategory: " + ex.labelText + "\n\n");
    }
    assert exs[..|exs|] == exs;
    prompt := prompt + ("Feedback: \"" + feedback + "\"\nCategory:");
  }

  /** The blocks of two example lists placed one after the other. */
  lemma {:induction false} ShotsAppend(a: seq<Example>, b: seq<Example>)
    ensures Shots(a + b) == Shots(a) + Shots(b)
    decreases |b|
  {
    if |b| == 0 {
      assert a + b == a;
    } else {
      var front := b[..|b| - 1];
      assert (a + b)[..|a + b| - 1] == a + front;
      assert (a + b)[|a + b| - 1] == b[|b| - 1];
      ShotsAppend(a, front);
      assert Shots(b) == Shots(front) + Shot(b[|b| - 1]);
    }
  }

  /** Example `i`'s block starts where the blocks of the examples before
      it end, and the next block starts right after it. */
  lemma ShotsPlaces(exs: seq<Example>, i: nat)
    requires i < |exs|
    ensures OccursAt(Shots(exs), Shot(exs[i]), |Shots(exs[..i])|)
    ensures |Shots(exs[..i])| + |Shot(exs[i])| == |Shots(exs[..i + 1])|
  {
    assert exs == exs[..i] + [exs[i]] + exs[i + 1..];
    ShotsAppend(exs[..i] + [exs[i]], exs[i + 1..]);
    ShotsAppend(exs[..i], [exs[i]]);
    assert [exs[i]][..0] == [];
    assert Shots([exs[i]]) == Shot(exs[i]);
    assert exs[..i + 1] == exs[..i] + [exs[i]];
    var before := Shots(exs[..i]);
    var whole := Shots(exs);
    assert whole == before + Shot(exs[i]) + Shots(exs[i + 1..]);
    assert whole[|before|..|before| + |Shot(exs[i])|] == Shot(exs[i]);
  }

  /** A block shows the example's text inside quotes and its label after
      the `Category: ` marker. */
  lemma ShotShows(ex: Example)
    ensures OccursAt(Shot(ex), ex.text, |Opening|)
    ensures OccursAt(Shot(ex), ex.labelText, |Opening| + |ex.text| + |Middle|)
  {
    var s := Shot(ex);
    assert s[|Opening|..|Opening| + |ex.text|] == ex.text;
    var k := |Opening| + |ex.text| + |Middle|;
    assert s[k..k + |ex.labelText|] == ex.labelText;
  }

  /** Every category stands verbatim in the header, at its offset in
      configured order. */
  lemma HeaderShowsCategories(cats: seq<string>, i: nat)
    requires i < |cats|
    ensures OccursAt(Header(cats), cats[i], |Lead| + JoinOffset(cats, ", ", i))
  {
    JoinPlaces(cats, ", ", i);
    InSecondOfThree(Lead, Join(cats, ", "), ".\n\n", cats[i], JoinOffset(cats, ", ", i));
  }

  /** In the header, every category but the last is followed by ", ". */
  lemma HeaderSeparatesCategories(cats: seq<string>, i: nat)
    requires i + 1 < |cats|
    ensures OccursAt(Header(cats), ", ", |Lead| + JoinOffset(cats, ", ", i) + |cats[i]|)
  {
    JoinPlaces(cats, ", ", i);
    InSecondOfThree(Lead, Join(cats, ", "), ".\n\n", ", ", JoinOffset(cats, ", ", i) + |cats[i]|);
  }

  /** What stands in the header stands at the same place in the prompt. */
  lemma InHeader(feedback: string, cats: seq<string>, exs: seq<Example>, sub: string, k: nat)
    requires OccursAt(Header(cats), sub, k)
    ensures OccursAt(PromptText(feedback, cats, exs), sub, k)
  {
    OccursInPrefix(Header(cats), Shots(exs) + Query(feedback), sub, k);
    assert PromptText(feedback, cats, exs) == Header(cats) + (Shots(exs) + Query(feedback));
  }

  /** Every category stands verbatim in the prompt's header, at its offset
      in configured order. */
  lemma PromptShowsCategories(feedback: string, cats: seq<string>, exs: seq<Example>, i: nat)
    requires i < |cats|
    ensures OccursAt(PromptText(feedback, cats, exs), cats[i], |Lead| + JoinOffset(cats, ", ", i))
  {
    HeaderShowsCategories(cats, i);
    InHeader(feedback, cats, exs, cats[i], |Lead| + JoinOffset(cats, ", ", i));
  }

  /** In the prompt's header, every category but the last is followed by
      ", ". */
  lemma PromptSeparatesCategories(feedback: string, cats: seq<string>, exs: seq<Example>, i: nat)
    requires i + 1 < |cats|
    ensures OccursAt(PromptText(feedback, cats, exs), ", ", |Lead| + JoinOffset(cats, ", ", i) + |cats[i]|)
  {
    HeaderSeparatesCategories(cats, i);
    InHeader(feedback, cats, exs, ", ", |Lead| + JoinOffset(cats, ", ", i) + |cats[i]|);
  }

  /** An occurrence in the middle of three concatenated strings. */
  lemma InSecondOfThree(a: string, b: string, c: string, sub: string, k: nat)
    requires OccursAt(b, sub, k)
    ensures OccursAt(a + b + c, sub, |a| + k)
  {
    OccursInPrefix(b, c, sub, k);
    OccursAfterPrefix(a, b + c, sub, k);
    assert a + b + c == a + (b + c);
  }

  /** Where example `i`'s block starts in the prompt. */
  function ShotStart(cats: seq<string>, exs: seq<Example>, i: nat): nat
    requires i <= |exs|
  {
    |Header(cats)| + |Shots(exs[..i])|
  }

  /** What stands in the blocks stands in the prompt, shifted by the
      header. */
  lemma InShots(feedback: string, cats: seq<string>, exs: seq<Example>, sub: string, k: nat)
    requires OccursAt(Shots(exs), sub, k)
    ensures OccursAt(PromptText(feedback, cats, exs), sub, |Header(cats)| + k)
  {
    InSecondOfThree(Header(cats), Shots(exs), Query(feedback), sub, k);
  }

  /** Every example's block stands in the prompt in the order given, one
      right after the other. */
  lemma PromptShowsBlocks(feedback: string, cats: seq<string>, exs: seq<Example>, i: nat)
    requires i < |exs|
    ensures OccursAt(PromptText(feedback, cats, exs), Shot(exs[i]), ShotStart(cats, exs, i))
    ensures ShotStart(cats, exs, i) + |Shot(exs[i])| == ShotStart(cats, exs, i + 1)
  {
    ShotsPlaces(exs, i);
    InShots(feedback, cats, exs, Shot(exs[i]), |Shots(exs[..i])|);
  }

  /** In the blocks, every example's text and label stand verbatim in its
      own block. */
  lemma ShotsShowExamples(exs: seq<Example>, i: nat)
    requires i < |exs|
    ensures OccursAt(Shots(exs), exs[i].text, |Shots(exs[..i])| + |Opening|)
    ensures OccursAt(Shots(exs), exs[i].labelText,
                     |Shots(exs[..i])| + |Opening| + |exs[i].text| + |Middle|)
  {
    var ex := exs[i];
    var start := |Shots(exs[..i])|;
    ShotsPlaces(exs, i);
    ShotShows(ex);
    WithinOccurrence(Shots(exs), Shot(ex), start, ex.text, |Opening|);
    WithinOccurrence(Shots(exs), Shot(ex), start, ex.labelText, |Opening| + |ex.text| + |Middle|);
  }

  /** Every example's text and label stand verbatim in the prompt, in its
      block: the text after `Feedback: "`, the label after `Category: `. */
  lemma PromptShowsExamples(feedback: string, cats: seq<string>, exs: seq<Example>, i: nat)
    requires i < |exs|
    ensures OccursAt(PromptText(feedback, cats, exs), exs[i].text,
                     ShotStart(cats, exs, i) + |Opening|)
    ensures OccursAt(PromptText(feedback, cats, exs), exs[i].labelText,
                     ShotStart(cats, exs, i) + |Opening| + |exs[i].text| + |Middle|)
  {
    var ex := exs[i];
    var start := |Shots(exs[..i])|;
    ShotsShowExamples(exs, i);
    InShots(feedback, cats, exs, ex.text, start + |Opening|);
    InShots(feedback, cats, exs, ex.labelText, start + |Opening| + |ex.text| + |Middle|);
  }

  /** An occurrence inside an occurrence is an occurrence in the whole. */
  lemma WithinOccurrence(s: string, outer: string, k: nat, inner: string, j: nat)
    requires OccursAt(s, outer, k) && OccursAt(outer, inner, j)
    ensures OccursAt(s, inner, k + j)
  {
    SliceOfSlice(s, k, k + |outer|, j, j + |inner|);
  }

  /** The prompt starts with the fixed instruction. */
  lemma PromptStart(feedback: string, cats: seq<string>, exs: seq<Example>)
    ensures |PromptText(feedback, cats, exs)| >= |Lead|
    ensures PromptText(feedback, cats, exs)[..|Lead|] == Lead
  {
    var p := PromptText(feedback, cats, exs);
    assert p == Lead + (Join(cats, ", ") + ".\n\n" + Shots(exs) + Query(feedback));
  }

  /** The prompt ends with the feedback in quotes and the open
      `Category:` cue. */
  lemma PromptEnd(feedback: string, cats: seq<string>, exs: seq<Example>)
    ensures var p := PromptText(feedback, cats, exs);
      && |p| >= |Query(feedback)|
      && p[|p| - |Query(feedback)|..] == Query(feedback)
      && OccursAt(p, feedback, |p| - |feedback| - |"\"\nCategory:"|)
      && p[|p| - |"Category:"|..] == "Category:"
  {
    var p := PromptText(feedback, cats, exs);
    var q := Query(feedback);
    assert p[|p| - |q|..] == q;
    var k := |p| - |feedback| - |"\"\nCategory:"|;
    assert p[k..k + |feedback|] == q[|Opening|..|Opening| + |feedback|];
    assert p[|p| - |"Category:"|..] == q[|q| - |"Category:"|..];
  }
}

/** Classifying feedback through the chat-completion endpoint
    (main.py:52-81): one request per feedback text, whose answer becomes a
    label, and whose failure becomes an "API_EXCEPTION: " label instead of
    an error. The endpoint itself is outside the model: its answer to each
    request is an input. */
module Classifier {
  import opened PyStr
  import opened Prompt
  import opened Labels

  /** One chat message. */
  datatype Message = Message(role: string, content: string)

  /** One chat-completion call: the credential the client was built with,
      the model and the messages. */
  datatype Request = Request(apiKey: string, model: string, messages: seq<Message>)

  /** What a call gives back: the message content of each completion
      choice (a content can be missing), or the text of the exception the
      call raised. */
  datatype Completion = Choices(contents: seq<Option<string>>) | Raised(detail: string)

  const ErrorPrefix: string := "API_EXCEPTION: "

  /** Python's text for `choices[0]` on an empty list. */
  const NoChoiceDetail: string := "list index out of range"

  /** Python's text for `.strip()` on a missing content. */
  const NoContentDetail: string := "'NoneType' object has no attribute 'strip'"

  /** The request sent for one feedback text. */
  function RequestFor(apiKey: string, model: string, feedback: string,
                      cats: seq<string>, exs: seq<Example>): Request
  {
    Request(apiKey, model, [Message("user", PromptText(feedback, cats, exs))])
  }

  /** The call raised, or its answer has no first choice with a content. */
  predicate Failed(c: Completion) {
    c.Raised? || |c.contents| == 0 || c.contents[0].None?
  }

  /** The text of the exception a failed call ends in. */
  function Detail(c: Completion): string
    requires Failed(c)
  {
    if c.Raised? then c.detail
    else if |c.contents| == 0 then NoChoiceDetail
    else NoContentDetail
  }

  /** The label for one answer: the `try`/`except` of main.py:61-74. A
      failure is never propagated; it becomes a marked label. */
  function Outcome(c: Completion, cats: seq<string>): (r: string)
    ensures Failed(c) ==> r == ErrorPrefix + Detail(c)
    ensures !Failed(c) ==> r == Label(c.contents[0].value, cats)
  {
    match c
    case Raised(detail) => ErrorPrefix + detail
    case Choices(contents) =>
      if |contents| == 0 then ErrorPrefix + NoChoiceDetail
      else match contents[0]
        case None => ErrorPrefix + NoContentDetail
        case Some(reply) => Label(reply, cats)
  }

  /** A failed call yields a label that starts with the error marker and
      ends with the exception's text; an answered call yields a configured
      category or the cleaned reply. The two kinds are not told apart by
      the label alone: see `ErrorLookalike`. */
  lemma OutcomeKinds(c: Completion, cats: seq<string>)
    ensures Failed(c) ==>
              && |Outcome(c, cats)| >= |ErrorPrefix|
              && Outcome(c, cats)[..|ErrorPrefix|] == ErrorPrefix
              && Outcome(c, cats)[|ErrorPrefix|..] == Detail(c)
    ensures !Failed(c) ==>
              Outcome(c, cats) in cats || Outcome(c, cats) == Clean(c.contents[0].value)
  {
    if !Failed(c) {
      LabelIsCategoryOrFallback(c.contents[0].value, cats);
    } else {
      var r := Outcome(c, cats);
      assert r == ErrorPrefix + Detail(c);
      assert r[..|ErrorPrefix|] == ErrorPrefix;
    }
  }

  /** A reply that reads like an error marker, and matches no category, is
      labelled exactly like a call that raised. */
  lemma ErrorLookalike(cats: seq<string>)
    requires forall i :: 0 <= i < |cats| ==> !Matches(cats[i], ErrorPrefix + "x")
    ensures Outcome(Choices([Some(ErrorPrefix + "x")]), cats) == Outcome(Raised("x"), cats)
  {
    var reply := ErrorPrefix + "x";
    MarkerCleansToItself();
    assert Outcome(Choices([Some(reply)]), cats) == Label(reply, cats);
  }

  /** The error-like reply is its own cleaned text. */
  lemma MarkerCleansToItself()
    ensures Clean(ErrorPrefix + "x") == ErrorPrefix + "x"
  {
    var reply := ErrorPrefix + "x";
    assert Cue[1] == 'a';
    assert forall k :: 0 <= k < |reply| ==> reply[k] != 'a' && reply[k] != '\n';
    StripUnchanged(reply);
    FindAbsent(reply, Cue, 1);
    FindAbsent(reply, "\n", 0);
    CleanPlain(reply, reply);
  }

  /** `chat_classify_feedback`: build the prompt, make the one call, and
      turn its answer into a label. The call is the n-th of the run, and
      `respond(n, request)` is the endpoint's answer to it. */
  method Classify(feedback: string, cats: seq<string>, exs: seq<Example>,
                  apiKey: string, model: string,
                  respond: (nat, Request) -> Completion, n: nat)
    returns (category: string, sent: Request)
    ensures sent == RequestFor(apiKey, model, feedback, cats, exs)
    ensures category == Outcome(respond(n, sent), cats)
  {
    var prompt := BuildPrompt(feedback, cats, exs);
    sent := Request(apiKey, model, [Message("user", prompt)]);
    var answer := respond(n, sent);
    category := Outcome(answer, cats);
  }

  /** The requests of a batch, one per feedback text, in row order. */
  function Requests(feedbacks: seq<string>, cats: seq<string>, exs: seq<Example>,
                    apiKey: string, model: string): seq<Request>
  {
    if |feedbacks| == 0 then []
    else
      var n := |feedbacks| - 1;
      Requests(feedbacks[..n], cats, exs, apiKey, model) + [RequestFor(apiKey, model, feedbacks[n], cats, exs)]
  }

  /** One value per call of a batch: `f(n, sent[n])` for the n-th call,
      collected in call order. */
  function PerCall<T>(sent: seq<Request>, f: (nat, Request) -> T): (r: seq<T>)
    ensures |r| == |sent|
    ensures forall n :: 0 <= n < |sent| ==> r[n] == f(n, sent[n])
  {
    if |sent| == 0 then []
    else
      var n := |sent| - 1;
      var front := sent[..n];
      var r := PerCall(front, f) + [f(n, sent[n])];
      assert forall k :: 0 <= k < n ==> front[k] == sent[k];
      r
  }

  /** The labels of a batch: the n-th request's label is the outcome of
      the endpoint's answer to the n-th call. */
  function Outcomes(sent: seq<Request>, cats: seq<string>,
                    respond: (nat, Request) -> Completion): (r: seq<string>)
    ensures |r| == |sent|
    ensures forall n :: 0 <= n < |sent| ==> r[n] == Outcome(respond(n, sent[n]), cats)
  {
    PerCall(sent, (n: nat, request: Request) => Outcome(respond(n, request), cats))
  }

  /** Request i of a batch carries feedback i. */
  lemma {:induction false} RequestRows(feedbacks: seq<string>, cats: seq<string>, exs: seq<Example>,
                                       apiKey: string, model: string)
    ensures |Requests(feedbacks, cats, exs, apiKey, model)| == |feedbacks|
    ensures forall i :: 0 <= i < |feedbacks| ==>
              Requests(feedbacks, cats, exs, apiKey, model)[i] == RequestFor(apiKey, model, feedbacks[i], cats, exs)
  {
    if |feedbacks| > 0 {
      var n := |feedbacks| - 1;
      RequestRows(feedbacks[..n], cats, exs, apiKey, model);
    }
  }

  /** `batch_classify_chat`: one call per feedback text, in row order,
      each label appended before the next call. `respond(n, request)` is
      the endpoint's answer to the n-th call of the run. */
  method BatchClassify(feedbacks: seq<string>, cats: seq<string>, exs: seq<Example>,
                       apiKey: string, model: string,
                       respond: (nat, Request) -> Completion)
    returns (labels: seq<string>, sent: seq<Request>)
    ensures sent == Requests(feedbacks, cats, exs, apiKey, model)
    ensures labels == Outcomes(sent, cats, respond)
  {
    labels, sent := [], [];
    for i := 0 to |feedbacks|
      invariant |sent| == i
      invariant sent == Requests(feedbacks[..i], cats, exs, apiKey, model)
      invariant labels == Outcomes(sent, cats, respond)
    {
      var category, request := Classify(feedbacks[i], cats, exs, apiKey, model, respond, i);
      assert feedbacks[..i + 1][..i] == feedbacks[..i];
      labels := labels + [category];
      sent := sent + [request];
    }
    assert feedbacks[..|feedbacks|] == feedbacks;
  }
}

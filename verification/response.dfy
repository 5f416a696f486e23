/**
 * What the upload handler does with the reply of the language-model API:
 * pull `choices[0].message.content` out of the decoded JSON body, with the
 * defaults of Python's `dict.get`, and cut the text into a question and an
 * answer at the literal "Answer: ".
 */
module Response {
  import opened Wrappers
  import opened PyStr

  /** A decoded JSON value; numbers, booleans and null are all `JScalar`. */
  datatype Json =
    | JObject(members: map<string, Json>)
    | JArray(items: seq<Json>)
    | JString(text: string)
    | JScalar

  /**
   * The Python exceptions the handler lets escape: those of the extraction,
   * and the `UnboundLocalError` of closing a connection that was never opened.
   */
  datatype PyException = AttributeError | IndexError | KeyError | TypeError | UnboundLocalError

  /** The content used when a key on the path is missing. */
  const NoResponse: string := "No response from API"

  /** `d.get(key, default)` on a dict. */
  function Get(d: map<string, Json>, key: string, default: Json): (r: Json)
    ensures key in d ==> r == d[key]
    ensures key !in d ==> r == default
  {
    if key in d then d[key] else default
  }

  /** `v[0]` on any JSON value: a list or string gives its first element, the rest raise. */
  function First(v: Json): (r: Result<Json, PyException>)
    ensures r.Success? <==> (v.JArray? && |v.items| > 0) || (v.JString? && |v.text| > 0)
    ensures v.JArray? && |v.items| > 0 ==> r.value == v.items[0]
    ensures v.JString? && |v.text| > 0 ==> r.value.JString? && r.value.text == v.text[..1]
    ensures (v.JArray? && v.items == []) || (v.JString? && v.text == []) ==> r == Failure(IndexError)
    ensures v.JObject? ==> r == Failure(KeyError)
    ensures v.JScalar? ==> r == Failure(TypeError)
  {
    match v
    case JArray(items) => if |items| > 0 then Success(items[0]) else Failure(IndexError)
    case JString(t) => if |t| > 0 then Success(JString([t[0]])) else Failure(IndexError)
    case JObject(_) => Failure(KeyError)
    case JScalar => Failure(TypeError)
  }

  /**
   * `data.get("choices", [{}])[0].get("message", {}).get("content", NoResponse)`,
   * which must further be a string for the `split` that follows.
   */
  function ContentOf(data: Json): Result<string, PyException> {
    if !data.JObject? then Failure(AttributeError)
    else
      var choice := First(Get(data.members, "choices", JArray([JObject(map[])])));
      if choice.Failure? then Failure(choice.error)
      else if !choice.value.JObject? then Failure(AttributeError)
      else
        var message := Get(choice.value.members, "message", JObject(map[]));
        if !message.JObject? then Failure(AttributeError)
        else
          var content := Get(message.members, "content", JString(NoResponse));
          if content.JString? then Success(content.text) else Failure(AttributeError)
  }

  /**
   * The envelope shape under which the extraction does not raise: the body is
   * an object; `choices` is absent or a non-empty list whose first element is
   * an object; in it `message` is absent or an object; in that `content` is
   * absent or a string.
   */
  predicate WellShaped(data: Json) {
    && data.JObject?
    && ("choices" !in data.members
        || (data.members["choices"].JArray? && |data.members["choices"].items| > 0
            && data.members["choices"].items[0].JObject?
            && MessageShaped(data.members["choices"].items[0].members)))
  }

  predicate MessageShaped(choice: map<string, Json>) {
    "message" !in choice
    || (choice["message"].JObject? && ContentShaped(choice["message"].members))
  }

  predicate ContentShaped(message: map<string, Json>) {
    "content" !in message || message["content"].JString?
  }

  /** The extraction succeeds exactly on well-shaped envelopes. */
  lemma ContentOfSucceedsIff(data: Json)
    ensures ContentOf(data).Success? <==> WellShaped(data)
  {
  }

  /** The content a well-shaped envelope carries, or the default where a key is missing. */
  lemma ContentOfValue(data: Json)
    requires WellShaped(data)
    ensures ContentOf(data).Success?
    ensures "choices" !in data.members ==> ContentOf(data).value == NoResponse
    ensures "choices" in data.members ==>
      var choice := data.members["choices"].items[0].members;
      && ("message" !in choice ==> ContentOf(data).value == NoResponse)
      && ("message" in choice ==>
            var message := choice["message"].members;
            && ("content" !in message ==> ContentOf(data).value == NoResponse)
            && ("content" in message ==> ContentOf(data).value == message["content"].text))
  {
  }

  /** An empty `choices` list is an index error, whatever else the body holds. */
  lemma EmptyChoicesRaise(top: map<string, Json>)
    requires "choices" in top && top["choices"] == JArray([])
    ensures ContentOf(JObject(top)) == Failure(IndexError)
  {
  }

  /** The delimiter the answer follows. */
  const AnswerMark: string := "Answer: "

  /** The label removed from the question. */
  const QuestionMark: string := "Question: "

  /** The question reported when the content has no answer delimiter. */
  const DefaultQuestion: string := "What is in the image?"

  datatype QnA = QnA(question: string, answer: string)

  /**
   * `parts = content.split("Answer: ")`; with more than one part the question
   * is `parts[0].replace("Question: ", "").strip()` and the answer
   * `parts[1].strip()`, otherwise the default question and the content itself.
   */
  function ParseQnA(content: string): QnA {
    var parts := Split(content, AnswerMark);
    if |parts| > 1 then
      QnA(Strip(Replace(parts[0], QuestionMark, "")), Strip(parts[1]))
    else
      QnA(DefaultQuestion, content)
  }

  /** Without the delimiter, the question is the default and the answer is the content, unstripped. */
  lemma ParseWithoutMark(content: string)
    requires !Contains(content, AnswerMark)
    ensures ParseQnA(content) == QnA(DefaultQuestion, content)
  {
    SplitMany(content, AnswerMark);
  }

  /**
   * With the first delimiter at `i` and the second at `k` (or `k` the end when
   * there is only one), the answer is the stripped text strictly between them
   * and the question is the text before `i`, with every "Question: " removed
   * in one left-to-right pass, stripped.
   */
  lemma ParseWithMark(content: string, i: int, k: int)
    requires OccursAt(content, AnswerMark, i) && forall j :: 0 <= j < i ==> !OccursAt(content, AnswerMark, j)
    requires i + |AnswerMark| <= k <= |content|
    requires k == |content| || OccursAt(content, AnswerMark, k)
    requires forall j :: i + |AnswerMark| <= j < k ==> !OccursAt(content, AnswerMark, j)
    ensures ParseQnA(content) ==
      QnA(Strip(Replace(content[..i], QuestionMark, "")), Strip(content[i + |AnswerMark|..k]))
  {
    FirstTwoPieces(content, AnswerMark, i, k);
  }

  /**
   * With the delimiter present, the answer holds no delimiter, and neither the
   * question nor the answer begins or ends with white space.
   */
  lemma ParsedWithMarkIsClean(content: string)
    requires Contains(content, AnswerMark)
    ensures !Contains(ParseQnA(content).answer, AnswerMark)
    ensures Trimmed(ParseQnA(content).question) && Trimmed(ParseQnA(content).answer)
  {
    var parts := Split(content, AnswerMark);
    SplitMany(content, AnswerMark);
    SplitPiecesAvoid(content, AnswerMark);
    assert !Contains(parts[1], AnswerMark);
    StripAvoids(parts[1], AnswerMark);
  }

  /** The default content holds no delimiter, so it comes back as the answer to the default question. */
  lemma ParseNoResponse()
    ensures ParseQnA(NoResponse) == QnA(DefaultQuestion, NoResponse)
  {
    forall i | 0 <= i <= |NoResponse| - |AnswerMark| ensures !OccursAt(NoResponse, AnswerMark, i) {
      assert NoResponse[i] != 'A';
      assert AnswerMark[0] == 'A';
    }
    ParseWithoutMark(NoResponse);
  }

  /** An envelope missing `choices`, `message` or `content` parses to the default question and "No response from API". */
  lemma MissingKeysGiveDefault(data: Json)
    requires WellShaped(data)
    requires || "choices" !in data.members
             || "message" !in data.members["choices"].items[0].members
             || "content" !in data.members["choices"].items[0].members["message"].members
    ensures ContentOf(data).Success?
    ensures ParseQnA(ContentOf(data).value) == QnA(DefaultQuestion, NoResponse)
  {
    ContentOfValue(data);
    ParseNoResponse();
  }

  /** Plain prose in the "Question: ... Answer: ..." convention. */
  lemma ParseProseExample(content: string)
    requires content == "Question: What color? Answer: Blue"
    ensures ParseQnA(content) == QnA("What color?", "Blue")
  {
    ExampleMarks(content);
    ParseWithMark(content, 22, |content|);
    ExampleQuestion(content);
    ExampleAnswer(content);
  }

  /** The answer part of the example is already stripped. */
  lemma ExampleAnswer(content: string)
    requires content == "Question: What color? Answer: Blue"
    ensures Strip(content[30..|content|]) == "Blue"
  {
    var after := content[30..|content|];
    assert after == "Blue";
    assert after[0..4] == after;
    StripUnique(after, 0, 4);
  }

  /** Where the delimiter occurs in the example. */
  lemma ExampleMarks(content: string)
    requires content == "Question: What color? Answer: Blue"
    ensures OccursAt(content, AnswerMark, 22)
    ensures forall j :: 0 <= j < 22 ==> !OccursAt(content, AnswerMark, j)
  {
    assert content[22..30] == AnswerMark;
    forall j | 0 <= j < 22 ensures !OccursAt(content, AnswerMark, j) {
      assert content[j] != 'A';
    }
  }

  /** The question part of the example loses its label and the trailing blank. */
  lemma ExampleQuestion(content: string)
    requires content == "Question: What color? Answer: Blue"
    ensures Strip(Replace(content[..22], QuestionMark, "")) == "What color?"
  {
    var before := content[..22];
    assert before == "Question: What color? ";
    ExamplePrefix(before);
  }

  /** The text before the delimiter in the example, label removed and stripped. */
  lemma ExamplePrefix(before: string)
    requires before == "Question: What color? "
    ensures Strip(Replace(before, QuestionMark, "")) == "What color?"
  {
    var rest := before[10..];
    assert before == QuestionMark + rest;
    assert rest == "What color? ";
    forall j | 0 <= j ensures !OccursAt(rest, QuestionMark, j) {
      if j <= |rest| - |QuestionMark| { assert rest[j] != 'Q'; }
    }
    RemoveLeadingLabel(QuestionMark, rest);
    ExampleQuestionText(rest);
  }

  /** The example question with its trailing blank, stripped. */
  lemma ExampleQuestionText(rest: string)
    requires rest == "What color? "
    ensures Strip(rest) == "What color?"
  {
    assert rest[0] == 'W' && rest[10] == '?' && rest[11] == ' ';
    assert rest[0..11] == "What color?";
    StripUnique(rest, 0, 11);
  }

  /** Removing a label that occurs only at the very front leaves what follows it. */
  lemma RemoveLeadingLabel(tag: string, rest: string)
    requires |tag| > 0
    requires forall j :: 0 <= j ==> !OccursAt(rest, tag, j)
    ensures Replace(tag + rest, tag, "") == rest
  {
    var s := tag + rest;
    assert s[..|tag|] == tag;
    SplitAt(s, tag, 0);
    assert s[|tag|..] == rest;
    SplitAbsent(rest, tag);
    var parts := Split(s, tag);
    assert parts == [""] + [rest];
    assert parts[1..] == [rest];
    ReplaceIsSplitJoin(s, tag, "");
  }
}

/**
 The application under evaluation, `my_app`: it collects the `question_`
 inputs in order, builds for each one a system + human prompt (with the
 attached image inlined as a data URI when there is a "file" attachment),
 sends it to the backend the model selector names, and stores each reply under
 `answer_1`, `answer_2`, ...

 The two model backends and the download-and-base64 step are not modelled:
 they are the parameters `geminiFlash`, `gpt4o` and `fetchBase64`.
 */
module App {
  import opened Dicts
  import opened Decimal

  datatype Option<T> = None | Some(value: T)

  /** The fixed system instruction sent before every question. */
  const Instruction: string := "You are a helpful assistant. The user will ask you a question regarding a file attached. Answer the question as concise as possible. If the question is a multiple choice question, answer with the letter 'A', 'B', 'C' or 'D' only."

  const QuestionPrefix: string := "question_"
  const AnswerPrefix: string := "answer_"
  const FileAttachment: string := "file"
  const DataUriPrefix: string := "data:image/jpeg;base64,"
  /** The one selector that routes to the Gemini backend; any other routes to GPT-4o. */
  const GeminiFlash: string := "gemini-2.0-flash"

  /** An attachment as the dataset service hands it over: only its presigned URL is used. */
  datatype Attachment = Attachment(presignedUrl: string)

  /** A content part of a human message: `{"type": "text", ...}` or `{"type": "image_url", ...}`. */
  datatype Part = TextPart(text: string) | ImageUrlPart(url: string)

  datatype Message = SystemMessage(content: string) | HumanMessage(parts: seq<Part>)

  predicate StartsWith(s: string, prefix: string) {
    |prefix| <= |s| && s[..|prefix|] == prefix
  }

  /** `key.startswith("question_")` */
  predicate IsQuestionKey(key: string) {
    StartsWith(key, QuestionPrefix)
  }

  /** The values of the `question_` keys, in insertion order. */
  function Questions(inputs: seq<(string, string)>): seq<string> {
    if inputs == [] then []
    else
      var (key, value) := inputs[|inputs| - 1];
      Questions(inputs[..|inputs| - 1]) + (if IsQuestionKey(key) then [value] else [])
  }

  /** The positions of the `question_` keys, in increasing order. */
  function QuestionPositions(inputs: seq<(string, string)>): seq<nat> {
    if inputs == [] then []
    else
      var n := |inputs| - 1;
      QuestionPositions(inputs[..n]) + (if IsQuestionKey(inputs[n].0) then [n] else [])
  }

  /**
   The question list is exactly the subsequence of input values whose key
   starts with "question_": the j-th question is the value at the j-th such
   position, the positions increase, and every such position is among them.
   */
  lemma {:induction false} QuestionsAreQuestionEntries(inputs: seq<(string, string)>)
    ensures |Questions(inputs)| == |QuestionPositions(inputs)|
    ensures forall j | 0 <= j < |QuestionPositions(inputs)| ::
      QuestionPositions(inputs)[j] < |inputs| &&
      IsQuestionKey(inputs[QuestionPositions(inputs)[j]].0) &&
      Questions(inputs)[j] == inputs[QuestionPositions(inputs)[j]].1
    ensures forall j, l | 0 <= j < l < |QuestionPositions(inputs)| :: QuestionPositions(inputs)[j] < QuestionPositions(inputs)[l]
    ensures forall i | 0 <= i < |inputs| && IsQuestionKey(inputs[i].0) :: i in QuestionPositions(inputs)
  {
    if inputs != [] {
      var n := |inputs| - 1;
      var front := inputs[..n];
      QuestionsAreQuestionEntries(front);
      var questions, positions := Questions(front), QuestionPositions(front);
      assert forall i | 0 <= i < n :: front[i] == inputs[i];
      if IsQuestionKey(inputs[n].0) {
        assert Questions(inputs) == questions + [inputs[n].1];
        assert QuestionPositions(inputs) == positions + [n];
      } else {
        assert Questions(inputs) == questions;
        assert QuestionPositions(inputs) == positions;
      }
    }
  }

  /** Inputs without any `question_` key give no questions, and so an empty outputs mapping. */
  lemma {:induction false} NoQuestionKeysNoQuestions(inputs: seq<(string, string)>)
    requires forall i | 0 <= i < |inputs| :: !IsQuestionKey(inputs[i].0)
    ensures Questions(inputs) == []
  {
    if inputs != [] {
      var n := |inputs| - 1;
      NoQuestionKeysNoQuestions(inputs[..n]);
    }
  }

  /** Splitting the inputs splits the question list the same way. */
  lemma {:induction false} QuestionsOfConcat(a: seq<(string, string)>, b: seq<(string, string)>)
    ensures Questions(a + b) == Questions(a) + Questions(b)
    decreases |b|
  {
    if b == [] {
      assert a + b == a;
    } else {
      var n := |b| - 1;
      assert (a + b)[..|a + b| - 1] == a + b[..n];
      QuestionsOfConcat(a, b[..n]);
    }
  }

  /** An input whose key does not start with "question_" has no effect on the question list. */
  lemma OtherInputsIgnored(a: seq<(string, string)>, key: string, value: string, b: seq<(string, string)>)
    requires !IsQuestionKey(key)
    ensures Questions(a + [(key, value)] + b) == Questions(a + b)
  {
    QuestionsOfConcat(a + [(key, value)], b);
    QuestionsOfConcat(a, [(key, value)]);
    QuestionsOfConcat(a, b);
    assert [(key, value)][..0] == [];
  }

  /** `f"answer_{n}"` */
  function AnswerKey(n: nat): string {
    AnswerPrefix + NatToDecimal(n)
  }

  /** The number an `answer_` key carries, if it is one `AnswerKey` can produce. */
  function AnswerIndex(key: string): Option<nat> {
    if StartsWith(key, AnswerPrefix) && |key| > |AnswerPrefix| && AllDigits(key[|AnswerPrefix|..])
       && (key[|AnswerPrefix|] == '0' ==> |key| == |AnswerPrefix| + 1)
    then Some(ParseDecimal(key[|AnswerPrefix|..]))
    else None
  }

  /** AnswerIndex undoes AnswerKey, so distinct indices give distinct keys. */
  lemma AnswerIndexOfAnswerKey(n: nat)
    ensures AnswerIndex(AnswerKey(n)) == Some(n)
  {
    var key := AnswerKey(n);
    assert key[|AnswerPrefix|..] == NatToDecimal(n);
    assert key[..|AnswerPrefix|] == AnswerPrefix;
    ParseNatToDecimal(n);
  }

  /** AnswerKey never gives two indices the same key. */
  lemma AnswerKeyInjective(a: nat, b: nat)
    requires AnswerKey(a) == AnswerKey(b)
    ensures a == b
  {
    AnswerIndexOfAnswerKey(a);
    AnswerIndexOfAnswerKey(b);
  }

  /** While `answer_1 .. answer_n` are the keys so far, `answer_{n+1}` is not yet one of them. */
  lemma NextAnswerKeyIsNew<V>(outputs: seq<(string, V)>)
    requires forall i | 0 <= i < |outputs| :: outputs[i].0 == AnswerKey(i + 1)
    ensures !HasKey(outputs, AnswerKey(|outputs| + 1))
  {
    forall i | 0 <= i < |outputs| ensures outputs[i].0 != AnswerKey(|outputs| + 1) {
      if outputs[i].0 == AnswerKey(|outputs| + 1) { AnswerKeyInjective(i + 1, |outputs| + 1); }
    }
  }

  /** The base64 payload of the "file" attachment, when there is one. */
  function ImageData(attachments: Dict<Attachment>, fetchBase64: string -> string): Option<string> {
    if HasKey(attachments, FileAttachment) then Some(fetchBase64(Get(attachments, FileAttachment).presignedUrl))
    else None
  }

  /**
   The human message for one question: a text part, followed by an image part
   exactly when there is image data.
   */
  function HumanMessageFor(question: string, image: Option<string>): (m: Message)
    ensures m.HumanMessage? && |m.parts| == (if image.Some? then 2 else 1)
    ensures m.parts[0] == TextPart(question)
    ensures image.Some? ==> m.parts[1].ImageUrlPart?
  {
    match image
    case Some(data) => HumanMessage([TextPart(question), ImageUrlPart(DataUriPrefix + data)])
    case None => HumanMessage([TextPart(question)])
  }

  /** The image part is a JPEG data URI whose payload is exactly the image data. */
  lemma ImagePartCarriesData(question: string, data: string)
    ensures var url := HumanMessageFor(question, Some(data)).parts[1].url;
      StartsWith(url, DataUriPrefix) && url[|DataUriPrefix|..] == data
  {
  }

  /** The two messages sent for one question: the fixed instruction, then the human message. */
  function Prompt(question: string, image: Option<string>): seq<Message> {
    [SystemMessage(Instruction), HumanMessageFor(question, image)]
  }

  /** The reply of the backend the selector names: Gemini for "gemini-2.0-flash", GPT-4o for anything else. */
  function Reply(model: string, geminiFlash: seq<Message> -> string, gpt4o: seq<Message> -> string, prompt: seq<Message>): string {
    if model == GeminiFlash then geminiFlash(prompt) else gpt4o(prompt)
  }

  /**
   The outputs mapping `my_app` builds from its question list: the i-th
   question's reply under `answer_{i+1}`.
   */
  function Answers(questions: seq<string>, image: Option<string>, model: string,
                   geminiFlash: seq<Message> -> string, gpt4o: seq<Message> -> string): seq<(string, string)>
  {
    if questions == [] then []
    else
      var n := |questions| - 1;
      Answers(questions[..n], image, model, geminiFlash, gpt4o)
        + [(AnswerKey(n + 1), Reply(model, geminiFlash, gpt4o, Prompt(questions[n], image)))]
  }

  /**
   One entry per question, in question order: the keys are exactly
   `answer_1 .. answer_k`, and the value under `answer_{i+1}` is the selected
   backend's reply to the i-th question's prompt.
   */
  lemma {:induction false} AnswersShape(questions: seq<string>, image: Option<string>, model: string,
                                        geminiFlash: seq<Message> -> string, gpt4o: seq<Message> -> string)
    ensures var outputs := Answers(questions, image, model, geminiFlash, gpt4o);
      |outputs| == |questions| &&
      forall i | 0 <= i < |questions| ::
        outputs[i] == (AnswerKey(i + 1), Reply(model, geminiFlash, gpt4o, Prompt(questions[i], image)))
  {
    if questions != [] {
      var n := |questions| - 1;
      AnswersShape(questions[..n], image, model, geminiFlash, gpt4o);
    }
  }

  /** The mapping has no key twice, and `answer_{k+1}` is not yet among its keys. */
  lemma AnswersKeys(questions: seq<string>, image: Option<string>, model: string,
                    geminiFlash: seq<Message> -> string, gpt4o: seq<Message> -> string)
    ensures DistinctKeys(Answers(questions, image, model, geminiFlash, gpt4o))
    ensures !HasKey(Answers(questions, image, model, geminiFlash, gpt4o), AnswerKey(|questions| + 1))
  {
    var outputs := Answers(questions, image, model, geminiFlash, gpt4o);
    AnswersShape(questions, image, model, geminiFlash, gpt4o);
    forall i, j | 0 <= i < j < |outputs| ensures KeyAt(outputs, i) != KeyAt(outputs, j) {
      if KeyAt(outputs, i) == KeyAt(outputs, j) { AnswerKeyInjective(i + 1, j + 1); }
    }
    NextAnswerKeyIsNew(outputs);
  }

  /**
   `my_app`. `modelName` is the function's own parameter and is never read:
   the backend is chosen by `model`, the module-level loop variable of the
   evaluation runner. The i-th question's reply is stored under
   `answer_{i+1}`; there is one entry per `question_` input and no other.
   */
  method MyApp(inputs: Dict<string>, attachments: Dict<Attachment>, modelName: string, model: string,
               fetchBase64: string -> string,
               geminiFlash: seq<Message> -> string, gpt4o: seq<Message> -> string)
    returns (outputs: Dict<string>)
    ensures |outputs| == |Questions(inputs)|
    ensures forall i | 0 <= i < |outputs| :: outputs[i].0 == AnswerKey(i + 1)
    ensures forall i | 0 <= i < |outputs| ::
      outputs[i].1 == Reply(model, geminiFlash, gpt4o, Prompt(Questions(inputs)[i], ImageData(attachments, fetchBase64)))
  {
    var isImage, isPdf := false, false;
    var questionList: seq<string> := [];
    for n := 0 to |inputs|
      invariant questionList == Questions(inputs[..n])
    {
      var (key, value) := inputs[n];
      assert inputs[..n + 1][..n] == inputs[..n];
      if IsQuestionKey(key) {
        questionList := questionList + [value];
      }
    }
    assert inputs[..|inputs|] == inputs;

    var data := "";
    if HasKey(attachments, FileAttachment) {
      isImage := true;
      var url := Get(attachments, FileAttachment).presignedUrl;
      data := fetchBase64(url);
    }
    ghost var image := ImageData(attachments, fetchBase64);
    assert isImage <==> image.Some?;
    assert isImage ==> data == image.value;

    outputs := [];
    for index := 0 to |questionList|
      invariant outputs == Answers(questionList[..index], image, model, geminiFlash, gpt4o)
    {
      var question := questionList[index];
      var systemMessage := SystemMessage(Instruction);
      var humanMessage;
      if isImage || isPdf {
        humanMessage := HumanMessage([TextPart(question), ImageUrlPart(DataUriPrefix + data)]);
      } else {
        humanMessage := HumanMessage([TextPart(question)]);
      }
      var aiMsg;
      if model == GeminiFlash {
        aiMsg := geminiFlash([systemMessage, humanMessage]);
      } else {
        aiMsg := gpt4o([systemMessage, humanMessage]);
      }
      assert aiMsg == Reply(model, geminiFlash, gpt4o, Prompt(question, image)) by {
        assert [systemMessage, humanMessage] == Prompt(question, image);
      }
      AnswersKeys(questionList[..index], image, model, geminiFlash, gpt4o);
      assert questionList[..index + 1][..index] == questionList[..index];
      outputs := Put(outputs, AnswerKey(index + 1), aiMsg);
    }
    assert questionList[..|questionList|] == questionList;
    AnswersShape(questionList, image, model, geminiFlash, gpt4o);
  }

  /**
   The closure `app_with_model` the runner builds for one model: it passes the
   model as `model_name`, and the backend follows that same model because the
   selector `my_app` reads holds it too.
   */
  method AppWithModel(inputs: Dict<string>, attachments: Dict<Attachment>, model: string,
                      fetchBase64: string -> string,
                      geminiFlash: seq<Message> -> string, gpt4o: seq<Message> -> string)
    returns (outputs: Dict<string>)
    ensures |outputs| == |Questions(inputs)|
    ensures forall i | 0 <= i < |outputs| :: outputs[i].0 == AnswerKey(i + 1)
    ensures model == GeminiFlash ==> forall i | 0 <= i < |outputs| ::
      outputs[i].1 == geminiFlash(Prompt(Questions(inputs)[i], ImageData(attachments, fetchBase64)))
    ensures model != GeminiFlash ==> forall i | 0 <= i < |outputs| ::
      outputs[i].1 == gpt4o(Prompt(Questions(inputs)[i], ImageData(attachments, fetchBase64)))
  {
    outputs := MyApp(inputs, attachments, model, model, fetchBase64, geminiFlash, gpt4o);
  }
}

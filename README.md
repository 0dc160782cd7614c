# LLM evaluation demo — a Dafny model of its local logic

The repository runs two language models against a dataset held by a remote
tracing service and scores their answers against reference answers. Almost all
of it is calls to hosted services. This project models the local logic of
`llm_eval_demo.py` and proves properties about it:

- **The evaluator `correct`** (`Evaluator.Correct`). It walks the produced
  outputs in insertion order and emits one `{key, score}` record per key. A
  record scores true exactly when the reference holds the same key with an
  equal value. Keys that only the reference holds are never scored.
- **The application `my_app`** (`App.MyApp`). It keeps the values of the
  `question_` inputs in insertion order. For each question it builds a
  two-message prompt: the fixed system instruction, then a human message. The
  human message has a text part, and also a JPEG data-URI image part when a
  `"file"` attachment exists. It sends the prompt to the Gemini backend when
  the selector is `"gemini-2.0-flash"` and to GPT-4o otherwise. It stores the
  i-th reply under `answer_{i+1}`.
- **The closure `app_with_model`** (`App.AppWithModel`), which the runner
  builds for each model name.

Python dicts iterate in insertion order, and both loops depend on that order.
So each dict is modelled as a sequence of key/value entries with no key twice
(`Dicts.Dict`). `key in d`, `d[key]` and `d[key] = value` are `HasKey`, `Get`
and `Put`. `Put` replaces the value in place for an existing key and appends
a new key at the end.

Things the model takes as parameters:

- The two model backends are the function parameters `geminiFlash` and
  `gpt4o`. Each maps a message list to the reply's content.
- The presigned-URL download followed by base64 encoding is the parameter
  `fetchBase64`, a function from URL to encoded text.

Where the code and its description differ, the model follows the code:

- `correct` is annotated `-> bool`, but it returns a list of records. The
  model returns `seq<ScoreRecord>`.
- `my_app` chooses its backend from the module-level variable `model`, the
  runner's loop variable. It never reads its own `model_name` parameter.
  `App.MyApp` therefore takes both: `modelName`, which is unused, and `model`,
  which selects the backend. `App.AppWithModel` passes the same value to both,
  as `app_with_model` does. So each experiment's backend follows its model
  name.
- An unrecognised model name does not raise an error. It falls through to the
  GPT-4o backend.
- The data URI always says `image/jpeg` (`llm_eval_demo.py:73`), whatever the attachment's real type. A PNG chart is labelled JPEG too. The model keeps the fixed prefix (`App.DataUriPrefix`).
- `is_pdf` is never set to true. The model keeps it as a flag that is always
  false, so only `is_image` decides whether the image part is added.

## Model

| member | source | states |
|---|---|---|
| Dicts.HasKey | llm_eval_demo.py:104 | definition: `key in d`, some entry has that key |
| Dicts.Get | llm_eval_demo.py:104 | definition: `d[key]`, the value of the entry with that key, defined only when the key is present |
| Dicts.LookupIffEntry | llm_eval_demo.py:104 | in a dict, "key present and `d[key] == value`" holds exactly when `(key, value)` is one of its entries |
| Dicts.Put | llm_eval_demo.py:84 | `d[key] = value` on a new key appends the entry at the end of the iteration order; on an existing key it replaces that entry's value in its own position and leaves every other entry where it was; the result still has distinct keys |
| Dicts.GetAfterPut | llm_eval_demo.py:84 | after `d[key] = value`, the key is present and `d[key]` is `value` |
| Dicts.PutKeepsOthers | llm_eval_demo.py:84 | `d[key] = value` leaves the presence and value of every other key unchanged |
| Decimal.NatToDecimal | llm_eval_demo.py:84 | the `{index+1}` rendering is a non-empty string of digits, with a leading zero only for 0 |
| Decimal.ParseNatToDecimal | llm_eval_demo.py:84 | parsing the decimal rendering of n gives back n |
| Decimal.NatToDecimalInjective | llm_eval_demo.py:84 | distinct numbers render as distinct strings |
| Evaluator.Matches | llm_eval_demo.py:104-107 | definition: the reference holds the key and its value there equals the produced value (the negation of line 104's condition) |
| Evaluator.Scores | llm_eval_demo.py:102-108 | definition: the list `correct` returns, one `{key, score}` record per produced entry in order, scored by `Matches` |
| Evaluator.Correct | llm_eval_demo.py:94-109 | one record per output key, in output order; a record is true iff its `(key, value)` entry is in the reference, i.e. the key is there with an equal value; a key missing from the reference scores false |
| Evaluator.ScoredKeysAreOutputKeys | llm_eval_demo.py:102-108 | no record carries a key that the outputs lack, so reference-only keys never appear in the result |
| Evaluator.ReferenceOnlyKeysIgnored | llm_eval_demo.py:103-107 | adding reference entries whose keys the outputs lack changes no score: missing answers are silently not scored |
| Evaluator.AllTrueIffContained | llm_eval_demo.py:103-107 | every record is true exactly when every produced entry is also an entry of the reference |
| Evaluator.PhoneAndDateExample | llm_eval_demo.py:103-107 | an equal phone number scores true, a date one day off scores false, and an extra reference key is not scored |
| App.IsQuestionKey | llm_eval_demo.py:53 | definition: the key starts with `question_` |
| App.Questions | llm_eval_demo.py:51-54 | definition: the values of the inputs whose key starts with `question_`, in insertion order |
| App.QuestionsAreQuestionEntries | llm_eval_demo.py:51-54 | the question list is exactly the values at the positions of the `question_` keys, in increasing position order, with every such position included |
| App.NoQuestionKeysNoQuestions | llm_eval_demo.py:51-54 | inputs without a `question_` key give an empty question list, and so an empty outputs mapping |
| App.QuestionsOfConcat | llm_eval_demo.py:51-54 | the question list of concatenated inputs is the concatenation of their question lists |
| App.OtherInputsIgnored | llm_eval_demo.py:52-53 | an input whose key does not start with `question_` has no effect on the question list |
| App.AnswerKey | llm_eval_demo.py:84 | definition: `f"answer_{n}"`, the prefix `answer_` followed by the decimal rendering of n |
| App.AnswerIndexOfAnswerKey | llm_eval_demo.py:84 | the number in `answer_{n}` can be read back from the key |
| App.AnswerKeyInjective | llm_eval_demo.py:84 | distinct question indices give distinct `answer_` keys |
| App.NextAnswerKeyIsNew | llm_eval_demo.py:84 | while the keys are `answer_1 .. answer_n`, the key `answer_{n+1}` is not yet present, so the dict assignment appends |
| App.ImageData | llm_eval_demo.py:56-60 | definition: when the attachments hold `"file"`, the encoded download of its presigned URL; otherwise no image |
| App.HumanMessageFor | llm_eval_demo.py:67-78 | the human message has a text part with the question, followed by an image part exactly when there is image data |
| App.ImagePartCarriesData | llm_eval_demo.py:73 | the image part's URL starts with `data:image/jpeg;base64,` and the rest is exactly the encoded data |
| App.Prompt | llm_eval_demo.py:63-78 | definition: the two messages sent for one question, the fixed system instruction and then the human message |
| App.Reply | llm_eval_demo.py:80-83 | definition: the Gemini backend's reply when the selector is exactly `"gemini-2.0-flash"`, the GPT-4o backend's reply for any other selector |
| App.Answers | llm_eval_demo.py:62-84 | definition: the outputs mapping, the reply to the i-th question under `answer_{i+1}` |
| App.AnswersShape | llm_eval_demo.py:62-84 | the outputs mapping has one entry per question; entry i has key `answer_{i+1}` and holds the selected backend's reply to the prompt for question i |
| App.AnswersKeys | llm_eval_demo.py:62-86 | the outputs mapping never holds a key twice |
| App.MyApp | llm_eval_demo.py:47-86 | the outputs keys are exactly `answer_1 .. answer_k`, where k is the number of `question_` inputs; the value under `answer_{i+1}` is the reply of the backend selected by `model` to the system instruction plus the human message for the i-th question, with the image part when there is a `"file"` attachment |
| App.AppWithModel | llm_eval_demo.py:120-121 | with the closure, the backend follows the experiment's model: every answer comes from Gemini when the model is `"gemini-2.0-flash"`, and from GPT-4o for any other name |

## Left out

- The two model calls (`llm_eval_demo.py:81`, `:83`) are network calls to hosted providers. They are the function parameters `geminiFlash` and `gpt4o`. Their retries, timeouts and failures are not modelled.
- App.MyApp: because the backends are functions, the model gives equal prompts equal replies. Two `question_` inputs with the same text therefore get the same answer. The real GPT-4o call runs at its default temperature and makes no such promise. Only the Gemini client is created with `temperature=0` (`llm_eval_demo.py:17`), and even that is not a guarantee of determinism.
- The attachment download and base64 encoding (`llm_eval_demo.py:58-60`) are HTTP plus library encoding. They are the parameter `fetchBase64`. A transport error or timeout in the download raises, and that is not modelled. An HTTP error status does not raise: its body is encoded and sent as the image, and `fetchBase64` covers that.
- Only the `presigned_url` field of an attachment is modelled, because it is the only field the code reads.
- Input, output and reference values are strings. The replies' `content` may also be a list of parts in the SDK; `Evaluator.Correct` is generic in the value type and only needs equality.
- The module-level client setup and the demo translation calls (`llm_eval_demo.py:12-42`) are environment loading and network calls.
- Reading the dataset and the `evaluate` loop with `max_concurrency=4` (`llm_eval_demo.py:89-91`, `115-130`) are remote orchestration, and the service schedules the concurrency. Only the closure `app_with_model` is modelled.
- The `print` diagnostics in `correct` (`llm_eval_demo.py:95-100`) are output only.
- The `@traceable` decorator (`llm_eval_demo.py:46`) is tracing plumbing.
- `upload_dataset.py` is not part of this model. It only fetches a file over HTTP, creates a remote dataset and uploads fixed examples.
- The `NameError` at `llm_eval_demo.py:80` is not modelled. It happens when `my_app` runs before the loop at line 118 has set the module-level `model`. `App.MyApp` always receives a selector. A direct call with a `model_name` different from `model` is covered: `modelName` and `model` are separate parameters, and only `model` chooses the backend.

# Omic Code Generation backend — a Dafny model

The backend is a small HTTP service. It takes a natural-language description
of an omic analysis task, builds a system prompt and a user prompt, sends
both to a text-completion provider, and turns the reply into a response with
two fields. The explanation is the prose before the first three-backtick
fence. The generated code is the text inside the first fenced block. A fixed
`GET /analysis-types` endpoint lists five analysis categories.

This project models the logic of the `/generate-code` handler apart from the
network call. It also models the analysis-type listing.

- `Wrappers.dfy` defines `Option` (Python's `Optional`) and `Result`, for a
  call that returns or raises.
- `PyStr.dfy` defines the three Python string operations the reply split
  uses: the `in` test, `split(sep)` and `strip()`. It also defines the
  operations these are built from or checked against. `str.isspace` gives
  the set of characters `strip()` removes, and `lstrip()`/`rstrip()` are
  its two halves. `find` is the basis of `in` and `split`, and `sep.join`
  is the inverse that `split` is proved against. `startswith` and
  `endswith` state facts about the prompt. Each has a contract that
  characterises it. For example, `strip()` is proved to return the one
  trimmed text that sits between two runs of whitespace. `split` is proved to
  join back to its input, and none of its parts contains the separator.
- `Backend.dfy` models `backend/main.py`:
  - the request, response and error records;
  - the user prompt, both as the handler's step-by-step `+=` method and as
    the function that specifies it;
  - the reply split and the response built from it;
  - the handler, with the provider as a parameter;
  - the analysis-type listing.

The provider call is the parameter `complete(systemPrompt, userPrompt)`. It
returns the reply text or a failure message. A `context` dict is its
entries in insertion order, with distinct keys. Python's `str()` of that
dict is the parameter `render`, so two dicts with the same entries in a
different order may render differently, as they do in Python. The system prompt, the trailer of
the user prompt, the fence and the model tag are constants with the source's
values.

Two facts about the code shape the contracts:

- `natural_language` is a plain pydantic `str`, so `""` is accepted, and
  `GenerateCode` has no precondition on it.
- The error `detail` is `str(e)`, which may be empty, so `GenerateCode`
  promises only that the detail is the failure's message.

## Model

| member | source | states |
|---|---|---|
| `PyStr.LStrip` | backend/main.py:79-80 | the result is a suffix of the input; what it drops is all whitespace; it does not start with whitespace |
| `PyStr.RStrip` | backend/main.py:79-80 | the result is a prefix of the input; what it drops is all whitespace; it does not end with whitespace |
| `PyStr.Strip` | backend/main.py:79-80 | the result is trimmed, and it is an infix of the input with only whitespace before and after it |
| `PyStr.StripUnique` | backend/main.py:79-80 | `strip()` of whitespace + trimmed text + whitespace is exactly that text, so the contract of `Strip` determines it |
| `PyStr.StripIdempotent` | backend/main.py:79-80 | stripping twice is the same as stripping once |
| `PyStr.Contains` | backend/main.py:77 | definition: Python's `d in s`, true when `d` occurs at some position of `s` |
| `PyStr.FindFrom` | backend/main.py:77-78 | a found index is the leftmost occurrence at or after the start position; "not found" means there is no occurrence there |
| `PyStr.Find` | backend/main.py:77-78 | `find` succeeds exactly when the `in` test holds, and then it gives the leftmost occurrence |
| `PyStr.Split` | backend/main.py:78 | a split yields at least one part, and at least two exactly when the separator occurs, so `parts[1]` exists whenever the fence is present |
| `PyStr.SplitJoin` | backend/main.py:78 | joining the parts with the separator gives back the input |
| `PyStr.SplitPartsFree` | backend/main.py:78 | no part of a split contains the separator |
| `PyStr.SplitFirstPart` | backend/main.py:78-79 | with a leftmost occurrence at `i`, part 0 is the text before `i` |
| `PyStr.SplitSecondPart` | backend/main.py:78-80 | part 1 is the text from the end of the first occurrence up to the next occurrence |
| `PyStr.SplitSecondPartToEnd` | backend/main.py:78-80 | with a single occurrence there are exactly two parts, and part 1 is everything after it |
| `Backend.HasAnalysisType` | backend/main.py:60 | definition: Python truthiness of `analysis_type`, present and not `""` |
| `Backend.HasContext` | backend/main.py:62 | definition: Python truthiness of `context`, present and not the empty dict |
| `Backend.UserPrompt` | backend/main.py:59-64 | definition: the finished user prompt as one expression, the task line, then the analysis-type line and the context line when truthy, then the trailer |
| `Backend.BuildUserPrompt` | backend/main.py:59-64 | the step-by-step `+=` assembly produces exactly the prompt that `UserPrompt` specifies |
| `Backend.UserPromptFrame` | backend/main.py:59-64 | every user prompt starts with `"Task: " + natural_language + "\n"` and ends with the fixed trailer |
| `Backend.UserPromptAnalysisLine` | backend/main.py:60-61 | right after the task line comes `"Analysis type: " + t + "\n"` when the analysis type is present and non-empty; otherwise nothing there starts with `"Analysis type: "` |
| `Backend.UserPromptContextLine` | backend/main.py:62-64 | after the task line and any analysis line, the rest is the context line plus the trailer when the context is a non-empty dict, and only the trailer otherwise; this fixes the order Task, Analysis type, Context |
| `Backend.UserPromptAmbiguous` | backend/main.py:59-64 | two different requests can give the same user prompt: an analysis type that contains a context line reads like a separate context |
| `Backend.SplitReply` | backend/main.py:76-83 | with a fence in the reply, neither the explanation nor the code contains the fence, and neither has leading or trailing whitespace |
| `Backend.SplitReplyWithoutFence` | backend/main.py:81-83 | with no fence, the explanation is the reply exactly, unstripped, and the code is `""` |
| `Backend.SplitReplyExplanation` | backend/main.py:77-79 | with the first fence at `i`, the explanation is the stripped text before `i` |
| `Backend.SplitReplyCodeBetween` | backend/main.py:77-80 | with a second fence, the code is the stripped text between the first fence and the second |
| `Backend.SplitReplyCodeToEnd` | backend/main.py:77-80 | with only one fence, the code is the stripped text from that fence to the end |
| `Backend.SplitReplyIgnoresTail` | backend/main.py:78-80 | two replies that agree up to and including the second fence split into the same explanation and code |
| `Backend.SplitReplyOneBlock` | backend/main.py:77-80 | prose, one fenced block and any tail, with no backtick in the prose or the block, split into the stripped prose and the stripped block |
| `Backend.SplitReplyPadded` | backend/main.py:77-80 | the same with the padding written out: the trimmed prose and the trimmed block are what the split returns |
| `Backend.SplitReplyExample` | backend/main.py:77-80 | the reply made of the line `Use DESeq2.`, a fence, the R snippet `library(DESeq2)` / `...` and a closing fence gives the explanation `"Use DESeq2."` and the code `"library(DESeq2)\n..."` |
| `Backend.SplitReplyKeepsLanguageTag` | backend/main.py:77-80 | a language tag after the opening fence (`python`) stays at the head of the code, and prose after the closing fence is dropped |
| `Backend.Shape` | backend/main.py:84-88 | the response carries the split's code and explanation, and its metadata is always `{"model": "gpt-3.5-turbo"}` |
| `Backend.GenerateCode` | backend/main.py:49-90 | the handler fails exactly when the provider call fails, and then with status 500 and the failure's message as detail. On success the response is `Shape` of the reply, so every `SplitReply` lemma applies to it, and the metadata is the model tag. With no fence, the code is empty and the explanation is the reply verbatim. With a fence, both fields are trimmed and free of the fence |
| `Backend.AnalysisTypes` | backend/main.py:95-102 | definition: the five labels in the order the endpoint returns them |
| `Backend.AnalysisTypesResponse` | backend/main.py:92-103 | the body has the single key `analysis_types`, holding exactly `["RNA-seq", "DNA-seq", "Proteomics", "Metabolomics", "Single-cell"]` in that order |
| `Backend.AnalysisTypesWellFormed` | backend/main.py:95-102 | the list `["RNA-seq", "DNA-seq", "Proteomics", "Metabolomics", "Single-cell"]` has five pairwise distinct, non-empty, already-stripped labels |

## Left out

- The provider call `openai.ChatCompletion.create` (backend/main.py:66-75) is a network call. It is the parameter `complete`. The fixed model name, `max_tokens=800` and `temperature=0.2` it passes are not modelled.
- Reading `response.choices[0].message.content` (backend/main.py:75): a missing choice, or content that is `None`, counts as a failure reported by `complete`.
- Exception mapping (backend/main.py:89-90): every exception in the `try` block becomes `HttpError(500, message)`. In the model only the provider can fail. Prompt building, splitting and stripping cannot raise.
- Python's `str()` of the `context` dict (backend/main.py:63) is the opaque parameter `render`. Its input keeps the dict's insertion order, but the model does not spell out Python's `repr` format. JSON numbers in `context` are modelled as integers.
- Loading `.env`, the API-key check at startup, the `print` calls, the FastAPI app, CORS and `uvicorn` (backend/main.py:1-27, 39-42, 105-107) are configuration and I/O.
- `GET /` (backend/main.py:44-46) returns a fixed welcome message and holds no logic.
- `async` handling and concurrent requests: the handler shares no state between requests.
- frontend/src/App.tsx is UI state, `fetch` calls and rendering, and is not part of this model.
- `PyStr.IsSpace` lists the characters for which Python's `str.isspace()` holds. Python derives this set from its Unicode database. The list here is fixed, so a change in a future Unicode version is not followed.
- `PyStr.Split` requires a non-empty separator. Python raises `ValueError` for an empty one, and the handler only ever splits on the three-backtick fence.

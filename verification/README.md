# FAQ retrieval and LangChain tutorial scripts, modelled in Dafny

The repository is a set of tutorial scripts that build a small FAQ
question-answering system (scrape, clean, split, embed into Redis, retrieve,
prompt a chat model) and a few LangChain exercises. Most of it calls hosted
models, Redis or UI libraries. This project models the self-contained
sequential logic between those calls, and proves what that logic promises:

- **FAQ text processing** (`RAG/text_manage.py`, module `TextManage`).
  - `clean_text` deletes `<…>` spans within a line, strips every line and drops blank lines.
  - `split_faq` cuts the text at `Q:`/`Q：` markers and makes each piece a question and an answer.
  - `process_faq` tags every pair with the same source, category and crawl time.
- **FAQ write path** (`RAG/Embedding_model.py`, module `EmbeddingModel`).
  - A class `FaqStore` holds the hashes of the key/value store, its search indexes and the log of texts sent for embedding.
  - `create_index` creates the index only when it is absent.
  - `insert_faq` writes `faq:<request id>` on an OK status and only prints otherwise.
  - `insert_from_file` inserts every record in order.
- **Prompt assembly and the query loops** (`RAG/prompt.py`, module `RagPrompt`, and `RAG/llm.py`, module `RagLlm`).
  - `build_prompt` keeps the first `top_k` documents, numbers them from 1, joins the snippets with a blank line, fills the fixed template and strips it.
  - The interactive loops stop on `exit`/`quit` and skip the model when the search finds nothing.
- **Q/A loader and paragraph splitter** (`Langchian/RAG.py`, module `QaLoader`).
- **Sliding-window chat memory** (`Langchian/memory.py`, module `ChatMemory`).
  - `get_session_history` creates a session on demand and trims it in place to its last 2k messages.
- **Language routing** (`Langchian/LCEL.py`, module `Lcel`).
- **Role switching and stream accumulation** (`Langchian/memory-bot.py`, module `MemoryBot`).
- **The `Product` description validator** (`Langchian/Parser.py`, module `ProductParser`).

Two shared modules hold the Python built-ins the scripts use:

- `PyBase` holds `Option`, `Result` and the Python exceptions raised: `KeyError`, `IndexError`, `TypeError` and `ValueError`.
- `PyStr` models `str` as `seq<char>` with these fixed choices:
  - `strip` removes `' '`, `'\t'`, `'\n'` and `'\r'`;
  - `splitlines` splits on `'\n'` only;
  - `lower` maps ASCII `A`-`Z` only;
  - `in` is substring containment;
  - `split`/`join` and integer formatting behave as in Python.

All the characters involved, including `：`, `。` and CJK text, lie in the
Basic Multilingual Plane, so `len` is the sequence length.

External services become parameters:

- the embedding service is a function from the number of calls made so far and the text sent to a response;
- the vector search is a function from the question to the documents;
- the chat model is a function from the prompt to the answer;
- the model's stream is the sequence of its chunks;
- file contents, timestamps and typed input lines are inputs.

Where the code has an evident typo, the model follows its evident intent:

- `aplitlines`, `lines.strip()`, `datatime`, `dec[...]`, `json.loaf`;
- `TextFiled`/`VectorFiled`, `np.float(32)`, `DINSTANCE_METRIC`;
- the call that lost its function name at `RAG/prompt.py:125`, read as `search_faq(...)`.

`build_prompt` in `RAG/llm.py` is character for character the same as the
one in `RAG/prompt.py`; it is defined once, in `RagPrompt`.

## Model

| member | source | states |
|---|---|---|
| PyStr.Strip | RAG/text_manage.py:20 | the result has no whitespace at either end |
| PyStr.StripSlice | RAG/text_manage.py:20 | `strip` keeps one contiguous slice of its input and removes only whitespace before and after it |
| PyStr.StripBlank | RAG/text_manage.py:20 | `s.strip()` is empty exactly when `s` is all whitespace, so `if line.strip()` drops exactly the blank lines |
| PyStr.StripPadded | RAG/prompt.py:116 | stripping a trimmed text padded by whitespace on both sides gives the text back |
| PyStr.JoinSplit | Langchian/RAG.py:94 | `s.split(sep)` for a non-empty `sep`: the pieces joined with `sep` give `s` back, no piece holds `sep`, and no piece followed by all but the last character of `sep` holds it, so each cut is at the leftmost occurrence (the identity split `[s]` of a text holding `sep` is ruled out) |
| PyStr.SplitPiecesFree | Langchian/RAG.py:94 | every occurrence of the separator is cut: no piece of `s.split(sep)` contains `sep` |
| PyStr.SplitPiecesLeftmost | Langchian/RAG.py:94 | the cuts are taken left to right at the first occurrence: a piece followed by all but the last character of `sep` still holds no `sep` (`"a\n\n\n"` splits at the first `"\n\n"`, into `"a"` and `"\n"`) |
| PyStr.SplitLinesJoin | RAG/text_manage.py:20-21 | `splitlines` of lines joined by `"\n"` gives those lines back when none holds a line break and the last one is not empty (`["a", ""]` joins to `"a\n"`, which splits to `["a"]`) |
| PyStr.LowerEqualsWord | RAG/prompt.py:122 | `s.lower() == w` for a lower-case ASCII word `w` holds exactly when `s` has the length of `w` and each of its characters is the letter of `w` or its upper-case form |
| PyStr.JoinContainsPart | RAG/prompt.py:100 | `sep.join(parts)` contains every one of the parts |
| PyStr.ContainsTrans | RAG/prompt.py:100-116 | a substring of a substring is a substring |
| PyStr.NatToStringValue | RAG/prompt.py:94-96 | the decimal digits written for `i` read back as `i` |
| TextManage.RemoveTagsNoTag | RAG/text_manage.py:18 | after `re.sub(r"<.*?>", "", text)` no `<` is closed by a `>` later on its line: nothing is left for the pattern to match |
| TextManage.RemoveTagsSpan | RAG/text_manage.py:18 | text before the first `<` is kept; the span from `<` to the first `>` after it on the same line is deleted (non-greedy); scanning resumes after it |
| TextManage.RemoveTagsNoTagFixed | RAG/text_manage.py:18 | text without a tag is left unchanged |
| TextManage.NonBlankStripped | RAG/text_manage.py:20 | the comprehension keeps only non-empty lines with no whitespace at either end |
| TextManage.NonBlankStrippedEmpty | RAG/text_manage.py:38-41 | nothing is kept exactly when every part is blank |
| TextManage.NonBlankStrippedFirst | RAG/text_manage.py:38-44 | the first kept item is the first non-blank part, stripped |
| TextManage.NonBlankStrippedAll | RAG/text_manage.py:38-41 | with no blank part, every part is kept, stripped, in place |
| TextManage.CleanLines | RAG/text_manage.py:18-20 | every kept line is non-empty, stripped, tag-free and holds no line break |
| TextManage.CleanTextLines | RAG/text_manage.py:20-21 | the lines of `clean_text`'s output are exactly the kept lines: no empty line, no line with whitespace at either end |
| TextManage.CleanTextNoTag | RAG/text_manage.py:18-21 | no `<…>` span within one line survives cleaning |
| TextManage.CleanTextIdempotent | RAG/text_manage.py:7-21 | cleaning already-cleaned text returns it unchanged |
| TextManage.MarkerAt | RAG/text_manage.py:35 | a marker is `Q` then `:` or `：`, either at the very start of the text (no MULTILINE flag) or right after a `\n`; both directions: a `Q:` at the start or after a `\n` is always matched, and nothing else is |
| TextManage.MarkersFrom | RAG/text_manage.py:35 | every text cut away has a marker's shape: `Q:`/`Q：` or `\nQ:`/`\nQ：` |
| TextManage.MarkersFromLater | RAG/text_manage.py:35 | past the start of the text only `\nQ:`/`\nQ：` is cut, since `^` matches at offset 0 alone (no MULTILINE flag) |
| TextManage.SplitOnMarkersInterleave | RAG/text_manage.py:35 | the parts with the matched markers put back between them give the text again; a two-character `Q:` marker can only be the first, cut at offset 0 with an empty first part; and the first part never begins with `Q:`/`Q：`. With SplitOnMarkersCutsEveryMarker this says `re.split` cuts at markers only and at every one |
| TextManage.SplitMidLineQ | RAG/text_manage.py:35 | a `Q:` in the middle of a line is not cut: `"\nQ:aQ:b"` splits into `""` and `"aQ:b"` |
| TextManage.SplitOnMarkersCutsEveryMarker | RAG/text_manage.py:35 | `re.split` cuts at every marker: no part still holds `\nQ:` or `\nQ：` |
| TextManage.SplitOnMarkersLeadingMarker | RAG/text_manage.py:35-36 | a text opening with a marker gives an empty first part |
| TextManage.SplitOnMarkersNoMarker | RAG/text_manage.py:35 | a text without markers is one part, the whole text |
| TextManage.PairOf | RAG/text_manage.py:43-45 | the question is non-empty and holds no line break; with a line break the part is question, `\n`, answer; with none the question is the whole part and the answer `""` |
| TextManage.PairsOfEmpty | RAG/text_manage.py:38-41 | there are no pairs exactly when every part is blank |
| TextManage.PairsOfFirst | RAG/text_manage.py:38-49 | the first pair comes from the first non-blank part |
| TextManage.PairsOfSnoc | RAG/text_manage.py:38-49 | one more part adds its pair at the end when it is not blank, nothing otherwise |
| TextManage.PairsOfAllNonBlank | RAG/text_manage.py:38-49 | with no blank part there is one pair per part, in order |
| TextManage.SplitFaq | RAG/text_manage.py:24-50 | as written: `None` exactly when every part is blank, otherwise the one pair of the first non-blank part (the preamble before the first marker included), which is the first of the pairs the text holds |
| TextManage.SplitFaqAll | RAG/text_manage.py:37-49 | the loop without the early return collects one pair per non-blank part, in order |
| TextManage.SplitTwoQuestions | RAG/text_manage.py:35-36 | `"Q:a\nQ:b"` splits into `""`, `"a"`, `"b"` |
| TextManage.SplitFaqKeepsOnlyFirstPair | RAG/text_manage.py:38-50 | that text holds two pairs, and whatever `split_faq` as written returns for it is the first pair alone |
| TextManage.AttachMetadata | RAG/text_manage.py:73-83 | one record per pair, in the same order, all carrying the same source, category and crawl time |
| TextManage.ProcessFaq | RAG/text_manage.py:66-83 | as written: `TypeError` exactly when the cleaned text has no pair (iterating `None`), otherwise the one record of the first pair |
| TextManage.ProcessFaqAll | RAG/text_manage.py:66-83 | with all pairs: one record per pair of the cleaned text, in order, with identical metadata |
| EmbeddingModel.EmbeddingText | RAG/Embedding_model.py:57 | the text sent is the question, one space, then the answer |
| EmbeddingModel.FaqKey | RAG/Embedding_model.py:70 | the key is `faq:` followed by the request id |
| EmbeddingModel.FaqKeyInjective | RAG/Embedding_model.py:70 | distinct request ids give distinct keys |
| EmbeddingModel.FaqKeyIndexed | RAG/Embedding_model.py:47 | every key `insert_faq` can write is covered by the index prefix `faq:` |
| EmbeddingModel.FaqFieldsMatchSchema | RAG/Embedding_model.py:30-47 | the hash written has exactly the index's five text fields plus `embedding`, with values copied from the record and its metadata |
| EmbeddingModel.HSet | RAG/Embedding_model.py:73-80 | `HSET key mapping` sets the given fields, keeps the hash's other fields and touches no other key |
| EmbeddingModel.InsertStepEffect | RAG/Embedding_model.py:66-83 | an OK call writes the record's fields under `faq:<request id>` and touches no other key; any other status writes nothing |
| EmbeddingModel.InsertAllKeys | RAG/Embedding_model.py:92-93 | a file adds exactly one key per successful call; a failed record is skipped and does not stop later ones |
| EmbeddingModel.InsertAllIndexed | RAG/Embedding_model.py:47 | every key a file adds is covered by the FAQ index |
| EmbeddingModel.FaqStore.CreateIndex | RAG/Embedding_model.py:20-49 | an existing index is left untouched; an absent one is created with the FAQ schema; the printed line says which; no hash changes |
| EmbeddingModel.FaqStore.InsertFaq | RAG/Embedding_model.py:52-83 | one embedding call per record; the store changes as `InsertStep` says; no index changes; the printed line is the key or the error code and message |
| EmbeddingModel.FaqStore.InsertFromFile | RAG/Embedding_model.py:86-93 | one `insert_faq` per record, in order: the texts sent are the records' texts and the hashes are those of `InsertAll` |
| RagPrompt.SliceTo | RAG/prompt.py:94 | `xs[:k]` is a prefix of `xs` |
| RagPrompt.SliceToLength | RAG/prompt.py:94 | a non-negative `k` keeps `min(k, len)` documents, all of them when there are at most `k`; a negative `k` counts from the end |
| RagPrompt.LabelNumber | RAG/prompt.py:94-96 | the label `【文档片段i】` holds the decimal digits of `i`, which read back as `i`, so distinct positions get distinct labels |
| RagPrompt.SnippetHolds | RAG/prompt.py:96 | each snippet starts with its label and holds its document's question and answer verbatim |
| RagPrompt.ContextEmpty | RAG/prompt.py:100 | the context is `""` exactly when no document is kept |
| RagPrompt.ContextHoldsDocs | RAG/prompt.py:94-100 | every kept document's question, answer and label appear in the context |
| RagPrompt.BodyEnds | RAG/prompt.py:102-113 | the template text starts with the instruction, ends with the closing request and has no whitespace at either end |
| RagPrompt.BodyHolds | RAG/prompt.py:102-113 | the template text holds the question and the context verbatim |
| RagPrompt.PromptShape | RAG/prompt.py:102-116 | stripping removes exactly the opening and closing line break and indentation: the prompt starts with the instruction, ends with the closing request, is trimmed and holds the question and the context verbatim |
| RagPrompt.PromptHoldsDocs | RAG/prompt.py:80-116 | the prompt holds each kept document's question and answer and its label numbered from 1 |
| RagPrompt.BuildPrompt | RAG/prompt.py:80-116 | the loop, join, template and strip give exactly `PromptFor`, a function of the inputs alone, so `build_prompt` is deterministic |
| RagPrompt.ExitCommandSpelling | RAG/prompt.py:122 | the loop ends exactly on `exit` or `quit` spelt in any mix of cases, with nothing around the word |
| RagPrompt.ExitCommandCase | RAG/prompt.py:122 | `EXIT` and `Quit` end the loop: the test is on the lowercased input |
| RagPrompt.NotExitCommand | RAG/prompt.py:122 | ` exit` and `q` do not end the loop: the input is not stripped and only the whole word counts |
| RagPrompt.ExitCommandLength | RAG/prompt.py:122 | an exit command is four characters long |
| RagPrompt.ExitIndex | RAG/prompt.py:120-123 | the loop handles the inputs before the first exit command and stops at it |
| RagPrompt.PromptTurnShortCircuit | RAG/prompt.py:125-132 | no documents gives the warning; otherwise the prompt built from the documents, which holds the question |
| RagPrompt.PromptTurnStep | RAG/prompt.py:125-132 | one iteration gives the turn `PromptTurnFor` describes |
| RagPrompt.PromptLoop | RAG/prompt.py:118-133 | one turn per input before the first exit command; `exited` exactly when there is an exit command |
| RagLlm.AskedPromptsCount | RAG/llm.py:147-153 | the model is asked once per answered turn: no call exactly when every turn is unanswered, one call per turn exactly when every turn is answered |
| RagLlm.TurnForShortCircuit | RAG/llm.py:147-153 | a question without documents never reaches the model; any other does, with the built prompt, which starts with the instruction and holds the question |
| RagLlm.NoDocsNoCalls | RAG/llm.py:147-150 | a session in which no search finds anything never calls the model |
| RagLlm.AskedPromptsSnoc | RAG/llm.py:147-153 | one more turn adds its prompt to the log exactly when it was answered |
| RagLlm.QueryStep | RAG/llm.py:147-155 | one iteration gives the turn `TurnFor` describes, and reports the prompt passed to `ask_llm` at the call: none when the search found nothing |
| RagLlm.Record | RAG/llm.py:147-155 | appending a turn and the prompts sent for it keeps the log equal to the prompts of the answered turns |
| RagLlm.QueryLoop | RAG/llm.py:141-155 | one turn per input before the first exit command; the prompts sent are those of the answered turns, in order; `exited` exactly when there is an exit command |
| QaLoader.LStripChars | Langchian/RAG.py:41-42 | the result does not start with a character from the set |
| QaLoader.LStripCharsSlice | Langchian/RAG.py:41-42 | `lstrip(chars)` removes a prefix made only of characters from `chars` and keeps the rest |
| QaLoader.QuestionOf | Langchian/RAG.py:41 | the question has no whitespace at either end |
| QaLoader.AnswerOf | Langchian/RAG.py:42 | the answer has no whitespace at either end |
| QaLoader.QuestionRoundTrip | Langchian/RAG.py:41 | `"Q: " + q` parses back to any trimmed `q`, even one starting with `Q`, `:` or `：`, since the space stops `lstrip` |
| QaLoader.AnswerRoundTrip | Langchian/RAG.py:42 | `"A: " + a` parses back to any trimmed `a`, even one starting with `A`, `:` or `：` |
| QaLoader.QuestionWithoutSpace | Langchian/RAG.py:41 | without the space, `lstrip("Q：:")` also removes marker characters that begin the question: `Q:Q币` gives `币`, while `Q: Q币` gives `Q币` |
| QaLoader.LoadLinesResult | Langchian/RAG.py:40-54 | `IndexError` exactly on an odd number of non-blank lines; otherwise lines `2j` and `2j+1` make document `j`, in file order, each with the same `source` and `created_at` |
| QaLoader.ReloadPageContent | Langchian/RAG.py:33-54 | a document's `page_content` saved as a file and loaded again gives the same document, for any trimmed one-line question and answer, empty ones included |
| QaLoader.StrippedMarkedRoundTrip | Langchian/RAG.py:33-42 | `load`'s stripped line `<mark>: text` is never blank and parses back to the text: `"Q: "` strips to `"Q:"`, which gives the empty question |
| QaLoader.Load | Langchian/RAG.py:32-54 | `load` is the pairing of the file's stripped non-blank lines |
| QaLoader.PairLines | Langchian/RAG.py:35-54 | the stepped loop gives exactly `LoadLines`, the `IndexError` included |
| QaLoader.ParagraphsJoin | Langchian/RAG.py:92-94 | the paragraphs joined by `"\n\n"` give back the stripped text, no paragraph holds `"\n\n"`, and each cut is at the first `"\n\n"` after the paragraph starts |
| QaLoader.FirstSentenceCut | Langchian/RAG.py:102 | the first sentence is the paragraph's prefix before its first `。`, or the whole paragraph, and never holds `。` |
| QaLoader.BlankParagraph | Langchian/RAG.py:98-102 | a blank paragraph gives `""`, since `is None` never holds for a string |
| QaLoader.SplitText | Langchian/RAG.py:82-103 | one output per paragraph, in order: the first sentence of the stripped paragraph |
| QaLoader.SplitTextSentences | Langchian/RAG.py:102 | no output holds `。`, and each is a prefix of its stripped paragraph |
| ChatMemory.WindowKeepsNewest | Langchian/memory.py:105-109 | the window holds at most 2k messages, the newest ones in order; a history of at most 2k is kept whole |
| ChatMemory.WindowIdempotent | Langchian/memory.py:105-109 | trimming twice is trimming once, so calling `get_session_history` twice in a row is calling it once |
| ChatMemory.WindowAfterAppend | Langchian/memory.py:105-109 | trimming early does not change a later window of the same messages plus any new ones |
| ChatMemory.ChatHistory.Clear | Langchian/memory.py:108 | the history is emptied |
| ChatMemory.ChatHistory.AddMessages | Langchian/memory.py:109 | the messages are appended in order |
| ChatMemory.SessionStore.constructor | Langchian/memory.py:92 | the store starts empty |
| ChatMemory.SessionStore.GetSessionHistory | Langchian/memory.py:98-111 | an unseen id gets a fresh empty history and an existing one is never replaced; the returned object is the stored one; its messages become the window of the old ones; no other session changes; histories stay distinct objects |
| ChatMemory.QuitCommandSpelling | Langchian/memory.py:129 | the loop ends exactly on `quit`, `exit` or `q` spelt in any mix of cases, with nothing around the word |
| ChatMemory.QuitCommandCase | Langchian/memory.py:129 | `Q` and `Exit` end the loop: the test is on the lowercased input |
| ChatMemory.NotQuitCommand | Langchian/memory.py:129 | `quit now` and `qq` do not end the loop |
| ChatMemory.QuitIndex | Langchian/memory.py:127-130 | the loop handles the inputs before the first quit command and stops at it |
| Lcel.DetermineLanguage | Langchian/LCEL.py:67-75 | the answer is one of the three labels, or `KeyError` when there is no `query` |
| Lcel.DetermineLanguageCases | Langchian/LCEL.py:67-75 | `KeyError` exactly without `query`; `japanese` exactly when the query holds `日语`, even with `韩语`; `korean` exactly with `韩语` and without `日语`; `english` otherwise |
| Lcel.DetermineLanguageOnlyQuery | Langchian/LCEL.py:69 | the answer depends on `inputs["query"]` alone |
| Lcel.RunBranch | Langchian/LCEL.py:85-89 | `RunnableBranch` fails exactly when a condition raises, and then only when there is a condition to evaluate |
| Lcel.BranchAgreesWithManual | Langchian/LCEL.py:85-109 | the branch chain (lines 85-89) and the manual `if`/`elif` (lines 104-109) pick the same prompt on every input, and the chain raises the same `KeyError` without a query |
| Lcel.ManualPromptExpert | Langchian/LCEL.py:51-64 | the prompt picked is the translation expert of the language the query names |
| Lcel.KoreanTestQuery | Langchian/LCEL.py:93 | the first test query goes to Korean |
| Lcel.JapaneseTestQuery | Langchian/LCEL.py:94 | the second test query goes to Japanese |
| Lcel.EnglishTestQuery | Langchian/LCEL.py:95 | the third test query goes to English |
| MemoryBot.BuildChain | Langchian/memory-bot.py:39-55 | the chain's system prompt is `ROLES[role]`; an unknown role raises `KeyError(role)` |
| MemoryBot.InitialRoleKnown | Langchian/memory-bot.py:12-17 | the page's initial role `通用助手` is a key of `ROLES`, so its chain can be built |
| MemoryBot.RoleDisplayRoundTrip | Langchian/memory-bot.py:94 | the role can be read back from its heading; the initial heading is that of `通用助手` |
| MemoryBot.SwitchRole | Langchian/memory-bot.py:84-94 | the chat is emptied and the new state is the new role |
| MemoryBot.SwitchThenBuild | Langchian/memory-bot.py:84-94 | after a switch the heading names the new role and the next chain uses its prompt, failing exactly for a role outside `ROLES` |
| MemoryBot.ConcatPrefix | Langchian/memory-bot.py:77-78 | each chunk only extends the reply: an earlier partial reply is a prefix of every later one |
| MemoryBot.ConcatLength | Langchian/memory-bot.py:78 | the reply's length is the sum of the chunks' lengths so far |
| MemoryBot.ChatFn | Langchian/memory-bot.py:57-82 | `KeyError` exactly for an unknown role; otherwise the session id is the role and the `j`-th yield is the old chat unchanged, the user entry and the assistant entry holding the first `j + 1` chunks concatenated, with an empty input box |
| MemoryBot.ChatFnLastYield | Langchian/memory-bot.py:79-82 | every yield keeps the old chat as its prefix, followed by the user's message; the last one holds the whole streamed reply |
| ProductParser.ValidateDescription | Langchian/Parser.py:201-203 | a description shorter than 10 characters raises `ValueError`; any other is returned unchanged |
| ProductParser.MakeProduct | Langchian/Parser.py:183-185 | name and category are taken as given |
| ProductParser.MakeProductAccepts | Langchian/Parser.py:174-203 | a product is built exactly when the description has at least 10 characters, whatever the name and category, and then holds the three fields unchanged |
| ProductParser.DescriptionBoundary | Langchian/Parser.py:201 | a description of exactly 10 characters is accepted and one of 9 refused |

## Left out

- File reads and writes, `json.dumps`/`json.load`, `print`, `input()`, the clock (`datetime.now`, `os.path.getctime`) and `strftime`: their values are inputs and their effects are outputs or left out.
- The Redis search index's own behaviour: index matching is modelled only as prefix coverage. The KNN query of `search_faq` in `RAG/llm.py`, `RAG/prompt.py` and `RAG/Similarity.py` is the `search` parameter.
- `embed_question`, the float32 conversion and `tobytes`: vectors are opaque byte strings.
- `ask_llm` and its `RuntimeError` on a failed call: the chat model is the `ask` parameter, which always answers.
- `search_faq`, `embed_question` and its `RuntimeError` (`RAG/llm.py:47`, `RAG/prompt.py:51`) and Redis errors: the search is the `search` parameter, which always returns, so `QueryLoop` and `PromptLoop` never end on a failed search the way the scripts do.
- `EOFError` when input runs out: the loops return `exited = false` instead.
- `RAG/playwright.py`, `Langchian/Model.py`, `Langchian/agent.py`, `Langchian/Prompt.py` and `Langchian/Tool.py` are not part of this model. Neither are the library output parsers in `Langchian/Parser.py`. These are library and client code without local logic.
- `RunnableWithMessageHistory`, `RunnableParallel` and chain composition are library orchestration. In `Langchian/memory-bot.py` only the session id chosen and the accumulation loop are modelled.
- The Redis-backed histories (`Langchian/memory.py:139-205`, `Langchian/memory-bot.py:22-37`) and the Gradio page are left out, except for the initial role and heading.
- TextManage.FaqRecord: records are typed, so a record dict missing a key (a `KeyError` in `insert_faq`) cannot be expressed.
- ProductParser.ValidateDescription: the `ValueError` is returned as is. Pydantic's wrapping of it into a `ValidationError` is not modelled.
- PyStr.Strip: Python's full Unicode whitespace set is narrowed to `' '`, `'\t'`, `'\n'` and `'\r'`.
- PyStr.SplitLines: it splits on `'\n'` only, not on the other line boundaries Python knows.
- PyStr.Lower: only ASCII letters are lowered. For the keyword tests this gives the same verdict, because no other character lowers to one of the ASCII letters `exit`, `quit` or `q` use.
- EmbeddingModel.FaqStore.CreateIndex: `info()` failing for any other reason than a missing index is not modelled.

## Findings

| source | as written | input that shows it | evidently intended | confidence | as-written member | corrected member |
|---|---|---|---|---|---|---|
| RAG/text_manage.py:50 | `return qa_pairs` sits inside the `for` loop, so `split_faq` returns after the first non-blank part (and `None` when all are blank, which `process_faq` then fails to iterate) | `"Q:a\nQ:b"`: two questions, one pair returned | one pair per non-blank part, as the sample output at RAG/text_manage.py:100-122 shows | high (not executed) | TextManage.SplitFaqKeepsOnlyFirstPair | TextManage.PairsOfAllNonBlank |

# Social caption generator: a Dafny model of its string logic

The caption generator is one Streamlit page. The user types a context and a
mood, picks a platform and ticks a hashtag box. Pressing "Generate Caption"
builds an instruction prompt, sends it to a hosted reasoning model, and shows
the model's answer in two parts: the caption, and the model's "thinking", which
ends at a literal `</think>` marker.

This project models the three pieces of string logic on that path as pure
functions, and proves what each one promises:

- **Prompt builder** (`Prompt.GeneratePrompt`, `generate_prompt` in app.py). It
  fills a fixed template with the context, the mood, the platform name and
  `Yes`/`No`. It appends one extra guideline asking for 3-5 hashtags exactly
  when hashtags are requested. The source reads module globals; here the four
  values are arguments, and the platform is a five-value datatype.
- **Generation guard** (`App.CanGenerate`, `App.OnGenerate`). Generation goes
  ahead only when `context.strip()` is non-empty. Otherwise the warning is shown
  and no prompt is built or sent. The hosted model is a function parameter
  `complete` from the prompt to the response text.
- **Response splitter** (`Response.SplitResponse`). It turns the raw text into
  (thinking, caption). The result has an explicit error case for the
  `ValueError` the source raises.

The Python string operations these rely on are modelled once, in module
`PyStr`:

- `str.isspace` and `str.strip()`;
- the `in` operator;
- `str.split(sep)`;
- `str.replace(old, new)`.

The program never calls `sep.join(parts)`. `PyStr.Join` models it only as the
inverse of `split`, to state what `split` and `replace` compute
(`PyStr.JoinSplit`, `PyStr.ReplaceIsJoinOfSplit`).

Split and replace scan from the left and never overlap matches, as CPython
does.

Files: `pystr.dfy` (module `PyStr`), `prompt.dfy` (`Prompt`), `response.dfy`
(`Response`), `app.dfy` (`App`).

### Two behaviours worth knowing

- **Several markers.** `split("</think>")` cuts at every marker, and the
  result is unpacked into exactly two names. Two or more markers give three or
  more pieces, and the unpacking raises `ValueError`. A first-occurrence split
  would never fail. `SplitResponse` returns `Err(UnpackError(n))` with the
  piece count `n` (at least 3), and `Response.TwoMarkersFail` proves that two
  markers anywhere in the text lead there.
- **Empty caption.** The caption can be empty even when the split succeeds.
  `Response.EmptyCaptionExample` shows that `<think>x</think>` splits into
  thinking `x` and an empty caption. A blank reply also gives an empty caption.

## Model

| member | source | states |
|---|---|---|
| `PyStr.IsSpace` | app.py:82 | The whitespace `strip()` removes: the space, `\t` to `\r`, the separators U+1C to U+1F, U+85, U+A0, U+1680, U+2000 to U+200A, U+2028, U+2029, U+202F, U+205F and U+3000. It has no contract; `Strip` and `IsBlank` are stated in terms of it. |
| `PyStr.Strip` | app.py:96 | The result is the slice of the input left after cutting its leading and trailing whitespace. Neither end of the result is whitespace. The result is empty exactly when the input is all whitespace. |
| `PyStr.StripUnique` | app.py:96 | Any string that fits that description is `Strip` of the input, so `Strip` is the one and only such string. |
| `PyStr.StripIdempotent` | app.py:95-96 | Stripping an already stripped string changes nothing. |
| `PyStr.StripUnchanged` | app.py:99 | A string with no whitespace at either end is its own strip. |
| `PyStr.Contains` | app.py:93 | `sub in s`: some index holds an occurrence of `sub`. It has no contract of its own. `ContainsAt`, `ContainsIffCount` and `MissingCharNotContained` pin it down. |
| `PyStr.ContainsIffCount` | app.py:93-94 | `sep in s` holds exactly when `split` finds at least one separator. |
| `PyStr.SplitAll` | app.py:94 | `s.split(sep)` has exactly one more piece than the number of separators found scanning from the left. |
| `PyStr.JoinSplit` | app.py:94 | Joining the pieces of a split with the separator gives back the original string. |
| `PyStr.SplitPartsFree` | app.py:94 | No piece of a split contains the separator. |
| `PyStr.SplitNone` | app.py:94 | Without the separator, the split is the one-piece list holding the whole string. |
| `PyStr.SplitFirst` | app.py:94 | When no separator starts inside `a`, `(a + sep + b).split(sep)` is `a` followed by the pieces of `b`. |
| `PyStr.NoSelfOverlap` | app.py:94 | Take a separator whose first character does not reappear in it. Two occurrences of it are at least its length apart. |
| `PyStr.FreePrefixNoEarlyMatch` | app.py:94 | For such a separator, a prefix free of it has no occurrence starting inside it, even one reaching into what follows. |
| `PyStr.CountAtLeastTwo` | app.py:94 | For such a separator, two occurrences anywhere mean `split` finds at least two separators. |
| `PyStr.ReplaceAll` | app.py:95 | `s.replace(old, new)`, scanning from the left without overlaps. An empty `old` puts `new` before every character and at the end. It has no contract of its own. `ReplaceIsJoinOfSplit` (replace is join of split), `ReplaceLength`, `ReplaceDeletes` and `ReplaceAbsent` characterise it. |
| `PyStr.ReplaceLength` | app.py:95 | Each occurrence that `replace` rewrites changes the length by `len(new) - len(old)`. |
| `PyStr.ReplaceIsJoinOfSplit` | app.py:95 | `s.replace(old, new)` equals `new.join(s.split(old))`. |
| `PyStr.ReplaceDeletes` | app.py:95 | `s.replace(old, "")` is the concatenation of the pieces of `s.split(old)`. None of those pieces contains `old`, and joined back with `old` they give `s`. So every occurrence of `old` that split finds is removed. |
| `PyStr.ReplaceAbsent` | app.py:95 | A string that does not contain the pattern is left unchanged by `replace`. |
| `PyStr.MissingCharNotContained` | app.py:93 | A string lacking some character of `sub` does not contain `sub`. |
| `Prompt.PlatformName` | app.py:43 | The select-box label of each of the five platforms, spelled as in the options list. `PlatformNameInjective` shows the labels tell the platforms apart. |
| `Prompt.PlatformNameInjective` | app.py:43 | The five platform labels are pairwise different, so the name in the prompt identifies the platform. |
| `Prompt.YesNo` | app.py:53 | The Hashtags value is `Yes` exactly when hashtags are requested, and `No` exactly when they are not. |
| `Prompt.BaseTemplate` | app.py:48-59 | The f-string rendered literally: it starts with a line break, each line keeps its four-space indent, line 54 is four spaces alone, and it ends with `"\n    "` before the closing quotes. `TemplateEndsInSpace`, `TemplateLayout`, `PromptFields` and `PromptHasValues` state its layout. |
| `Prompt.GeneratePrompt` | app.py:47-63 | The base template, filled with the four values, is always a prefix of the prompt. |
| `Prompt.TemplateEndsInSpace` | app.py:59 | The template's last character is the space before the closing quotes, so the template alone never ends with the hashtag guideline. |
| `Prompt.HashtagGuidelineIffRequested` | app.py:60-63 | The prompt ends with the hashtag guideline exactly when hashtags are requested. Its length is the template's plus that guideline's when requested, and the template's alone otherwise. |
| `Prompt.PromptShape` | app.py:60-63 | Without hashtags the prompt equals the base template. With hashtags it is the template followed by the hashtag guideline. |
| `Prompt.TemplateLayout` | app.py:48-59 | In any string laid out like the template, the two field pairs come right after the opening line, and the platform guideline comes right after the guidelines header. |
| `Prompt.PromptFields` | app.py:48-56 | Right after the opening line come the Context and Mood field lines, holding the context and mood verbatim. The Platform and Hashtags field lines follow, holding the platform name and `Yes`/`No`. The "resonate with <platform> users" guideline is in the prompt too. |
| `Prompt.LayoutInPrompt` | app.py:48-59 | Those layout facts hold in any string that starts with such a layout, so they carry over from the template to the prompt. |
| `Prompt.FieldValue` | app.py:50-53 | A field line holds its value right after the `- **<name>:** ` label. |
| `Prompt.FieldPairValues` | app.py:50-53 | Two consecutive field lines hold their values at fixed offsets after their labels. |
| `Prompt.FieldPairContains` | app.py:50-53 | Both values of two consecutive field lines occur in the string. |
| `Prompt.PromptHasValues` | app.py:50-53 | The context, mood, platform name and Yes/No value all occur in the prompt, whatever the inputs. |
| `Prompt.ValuesInLayout` | app.py:50-53 | In any string that starts with an opening and four field lines, all four values occur. |
| `Prompt.BaliExample` | app.py:47-63 | For "Vacation in Bali", "Fun", Instagram and hashtags on, the prompt contains all three values and `Yes`, and ends with the hashtag guideline. |
| `Response.CloseMarkerUnbordered` | app.py:94 | The first character of `</think>` does not reappear in it, so two markers never overlap. |
| `Response.SplitResponse` | app.py:93-99 | The split succeeds exactly when the text holds at most one `</think>`. On failure the error carries the piece count, which is the marker count plus one and at least 3. |
| `Response.NoMarkerReply` | app.py:97-99 | With no `</think>`, the thinking is "No additional thoughts generated." and the caption is the whole text, stripped. |
| `Response.OneMarkerReply` | app.py:93-96 | Let `before` and `after` be marker-free. `before + "</think>" + after` has exactly one marker. Its caption is `after` stripped. Its thinking is `before` with every `<think>` removed, then stripped. |
| `Response.ExactlyOneMarker` | app.py:93-96 | Conversely, every text with exactly one `</think>` has that shape and splits that way. |
| `Response.TwoMarkersFail` | app.py:94 | Two `</think>` markers at different positions make the two-name unpacking fail, with at least three pieces. |
| `Response.CaptionStripped` | app.py:96-99 | Whenever the split succeeds, the caption has no surrounding whitespace. |
| `Response.ThinkBlockReply` | app.py:93-96 | Take a reply of the form `<think>T</think>C`, with no `<think>` in T and no stray closing markers. Thinking is T stripped, and the caption is C stripped. |
| `Response.ExampleTextsStripped` | app.py:95-96 | The two example texts "reasoning here" and "Final caption!" have no whitespace to strip. |
| `Response.ThinkingExample` | app.py:93-96 | `<think>reasoning here</think>Final caption!` splits into "reasoning here" and "Final caption!". |
| `Response.NoMarkerExample` | app.py:97-99 | "Just a caption, no markers." gives the placeholder thinking and itself as the caption. |
| `Response.EmptyCaptionExample` | app.py:93-96 | `<think>x</think>` splits into thinking "x" and an empty caption. |
| `App.CanGenerate` | app.py:82 | Generation may proceed exactly when the context is not all whitespace. |
| `App.OnGenerate` | app.py:81-99 | The warning is shown exactly when the context is all whitespace, the empty string included, and it carries the source's warning text. Otherwise the prompt sent is the one built from the form. |
| `App.BlankNeverQueries` | app.py:82-87 | With a blank context the outcome is the warning, whatever the model would answer. The model is never consulted. |
| `App.AnsweredIsSplitOfCompletion` | app.py:84-99 | With a non-blank context, the outcome is the split of the model's answer to exactly the form's prompt. |
| `App.EmptyContextBlocked` | app.py:82-83 | The empty context is blocked with the warning. |
| `App.NonBlankProceeds` | app.py:82-84 | A context with any non-whitespace character lets generation proceed. |

## Left out

- Loading the API key from the environment and halting at startup when it is missing (app.py:15-20). This is process environment and I/O.
- Constructing `ChatGroq` and its `invoke` network call (app.py:86-87). This is a foreign library and a remote call. The model stands in for them with the function parameter `complete` of `App.OnGenerate`.
- Probing the response with `hasattr`/`getattr` (app.py:90, app.py:102). This depends on a library type that is not part of this model. The raw response text is the splitter's input.
- All Streamlit layout, widgets, defaults, spinner, columns and expanders. This includes the session-state copy of the caption (app.py:112-114) and the metadata panel with its `N/A` defaults (app.py:121-130). All of it is UI rendering.
- The commented-out earlier handler (app.py:66-78). It is dead code.
- `PyStr.SplitAll`: requires a non-empty separator. Python raises `ValueError` for an empty one, and the program only splits on `</think>`.
- `Response.SplitResponse`: the error records only the number of pieces, not the text of Python's "too many values to unpack" message.
- `PyStr.IsSpace`: lists the characters CPython's `str.isspace` accepts as a fixed set, without a proof that the list matches CPython's table. The general lemmas do not depend on the set. The example lemmas need only that their texts' first and last characters are not whitespace.
- The splitter and prompt builder are deterministic because they are functions. No separate idempotence lemma is stated.

# AI STD Generator — a Dafny model of the generation pipeline

The AI STD Generator is a Streamlit page. A user enters a feature name and a
specification, either typed or as an uploaded `.txt` file, and may add image
captions. The page asks a chat model for test cases as a JSON array, keeps the
parsed cases in the session, and lets the user tick cases and download them as
a Testmo import CSV. This project models the pure text-and-list pipeline inside
the page and proves properties of it:

- `Prompt`: the instruction text built from the feature name, the specification and the captions. The fixed text pieces form a `Template`; `Prompt.Testmo` holds the generator's own wording, and the facts are proved for every template (the image-block fact for every template whose heading and closing line differ in their second character).
- `Extract`: the search for `\[.*\]` in dot-matches-newline mode that pulls the JSON array out of the reply.
- `Session`: the "Generate STD" action as a transition on the session's list of test cases.
- `Export`: the checkboxes, the export set, and the five-column rows `Title, Steps, Expected, Folder, Tags`.
- `ApiKey`: the choice between the key typed in the sidebar and the key from the environment.
- `Strings`: Python's `str.join`, `str.split` and `str.strip`, and first/last occurrence search.
- `Records`: the loosely typed test-case record. Every field is `Absent`, `Null`, `Text` or `Items`.
- `Pipeline`: facts that follow one generate action through to the review page.

The chat service and the JSON reader (`pd.read_json` followed by `to_dict`) are
not modelled. They are parameters of the generate step. The chat service is a
function from a request to `Option<string>`, where `None` means the call raised.
The reader is a function from text to `Option<seq<TestCase>>`, where `None`
means it raised.

Behaviour of the code that the model follows:

- A reply whose objects have no `title` does not fail generation. The reader
  accepts it and the session list is replaced. The page then stops with a
  `KeyError` when it renders `test["title"]`, so nothing can be downloaded
  (`Pipeline.MissingTitleReplacesThenStopsRender`).
- With an empty session list, the review block and the download branch are
  never reached. There is no header-only CSV (`Export.DownloadCsv` gives `NotShown`).
- The review list iterates every case's `steps` and `tags`. When one object has
  one of these keys and another lacks it, pandas fills the gap with NaN. NaN is
  not iterable, so the page stops with a `TypeError` before the download branch.
- An uploaded file takes precedence even when it is empty. An empty upload
  therefore reports missing input, even when the text area is filled in.
- The export stops with a `KeyError` when no exported case has a `steps`,
  `tags` or `expected` key. The checks run in that order.
- The model takes a checkbox's value to be the one stored for it when the user
  has set it, and the select-all value otherwise (`Export.Checkboxes`). Which
  stored values survive a change of select-all is left to the caller, through
  the stored map.

## Model

| member | source | states |
|---|---|---|
| `Prompt.Build` | ai_std_generator.py:150-162 | The prompt begins with the template's fixed line, which for `Prompt.Testmo` is the Testmo JSON-array request. `Feature: <name>` follows it, then the whole specification at a fixed offset. The image block comes right after the specification, and the prompt ends with the directive naming the six fields |
| `Prompt.TestmoFraming` | ai_std_generator.py:150-162 | Every prompt the generator sends opens with `Generate test cases in JSON array format for Testmo import.`, then `Feature: <name>` right after that line. It ends with the directive naming title, preconditions, severity, steps (array), expected and tags (array) |
| `Prompt.Assemble` | ai_std_generator.py:150-162 | Building the prompt by appending the heading and one `- caption` line per caption gives exactly `Build`'s text |
| `Prompt.ImageBlockIffCaptions` | ai_std_generator.py:155-158 | The `Image Descriptions:` heading follows the specification exactly when the caption list is non-empty. This holds for any template whose heading and closing line differ in their second character, and `Prompt.Testmo` is one |
| `Prompt.CaptionsInOrder` | ai_std_generator.py:157-158 | Every caption appears as its own `- caption` line, after the captions before it and before the ones after it |
| `Prompt.BulletsAppend` | ai_std_generator.py:157-158 | The caption lines of two lists in sequence are the lines of the first followed by those of the second |
| `Prompt.RecoverSpecRoundTrip` | ai_std_generator.py:150-154 | The specification can be read back exactly from the prompt, so it is embedded whole and untruncated |
| `Prompt.BuildInjectiveInSpec` | ai_std_generator.py:153 | Different specifications give different prompts when the feature and captions are the same |
| `Extract.Search` | ai_std_generator.py:177 | Taking the first `[` and the last `]` gives the leftmost, longest match of `\[.*\]`. There is a match exactly when some `[` comes before some `]` |
| `Extract.SearchResultUnique` | ai_std_generator.py:177 | A leftmost-then-longest search has at most one answer |
| `Extract.SearchByBacktracking` | ai_std_generator.py:177 | The regex engine's scan tries each start from the left and backtracks the greedy `.*` from the end. It reports the same match as `Search` |
| `Extract.ExtractJsonArray` | ai_std_generator.py:177-178 | With a `[` before a `]`, the result is the slice from the first `[` through the last `]`, so it starts with `[`, ends with `]` and occurs in the reply. Otherwise it is the reply unchanged |
| `Extract.CleanArrayKept` | ai_std_generator.py:177-178 | Text that already starts with `[` and ends with `]` is returned whole |
| `Extract.ExtractIdempotent` | ai_std_generator.py:177-178 | Extracting from an extraction returns it unchanged |
| `Extract.ProseAroundArrayDropped` | ai_std_generator.py:177-178 | Prose with no `[` before the array and no `]` after it is dropped |
| `Session.Generate` | ai_std_generator.py:140-185 | Missing input happens exactly when the feature name or the chosen specification is empty. A transport or parse failure leaves the list unchanged, and a parse failure keeps the raw reply for display. On success the list becomes the parsed records |
| `Session.UploadOverridesTextArea` | ai_std_generator.py:141-147 | With a file uploaded, the text area has no effect. An empty uploaded file means missing input |
| `Session.ReplaceIgnoresPreviousList` | ai_std_generator.py:180-182 | A successful generate gives the same result whatever list the session held before, so lists are never merged |
| `Session.RunHoldsLatestInstalled` | ai_std_generator.py:180-185 | After any run of generate actions, the session holds the records of the latest successful one, or the initial list when none succeeded |
| `Session.RunForgetsInitialList` | ai_std_generator.py:180-182 | Once any action in a run has succeeded, the list the session started with no longer affects the outcome |
| `Export.TickChangesOnlyThatBox` | ai_std_generator.py:195-200 | Setting one keyed checkbox changes that box's value and leaves every other box as it was |
| `Export.SelectedAtCheckedIndices` | ai_std_generator.py:193-210 | The selection is exactly the cases at the checked positions, in ascending list order |
| `Export.CollectSelected` | ai_std_generator.py:191-210 | The render loop collects exactly the checked cases in list order |
| `Export.ExportSet` | ai_std_generator.py:214 | When some box is checked, the export set is the checked cases in list order. When none is checked, it is every case |
| `Export.ExportsOnlyTheCheckedOne` | ai_std_generator.py:214 | With exactly one box checked, exactly that case is exported |
| `Export.UntouchedBoxesExportAll` | ai_std_generator.py:190-214 | Before any box is touched, every case is exported, whichever value select-all has |
| `Export.JoinIfList` | ai_std_generator.py:219-225 | Every list cell becomes one text cell, and an empty list becomes the empty text. When the list is non-empty and no item holds the separator, the text splits back into the list. Any other cell passes through unchanged |
| `Export.Row` | ai_std_generator.py:215-226 | A row has exactly the five columns. Title and Expected are the record's values as the table holds them, and Folder is the feature name |
| `Export.StepsCellRoundTrip` | ai_std_generator.py:219-221 | The Steps cell is the steps joined by line breaks. Splitting it on line breaks gives the steps back when no step contains one |
| `Export.TagsCellRoundTrip` | ai_std_generator.py:223-225 | The Tags cell is the tags joined by commas. Splitting it on commas gives the tags back when no tag contains one |
| `Export.NonListCellsPassThrough` | ai_std_generator.py:219-225 | A Steps or Tags value that is not a list reaches the row unchanged |
| `Export.DownloadCsv` | ai_std_generator.py:188-226 | The review block is not shown exactly when the list is empty. Rendering stops at the first case that does not render: `KeyError` on a missing `title`, else `TypeError` on null `steps`, else `TypeError` on null `tags`. Once every case renders, the export stops with a `KeyError` on the first of `Steps`, `tags` and `Expected` that no exported case has. A CSV comes exactly when none of these happens, with the five-column header and one row per exported case, in order |
| `Export.FirstStop` | ai_std_generator.py:193-208 | The render loop stops at a position where every earlier case renders and the case there does not. It is the list's length when every case renders |
| `Export.ExampleNullStepsStopsRender` | ai_std_generator.py:205 | Two cases where only the first has steps end in a `TypeError` on `steps`, whatever the checkboxes say |
| `Export.ExampleRow` | ai_std_generator.py:215-226 | Title `T`, steps `step1`/`step2`, expected `E`, feature `Login` and tags `ui`/`smoke` give the row `T`, `step1\nstep2`, `E`, `Login`, `ui,smoke` |
| `Strings.SplitJoin` | ai_std_generator.py:219-225 | Splitting a join gives back a non-empty list of parts, as long as no part contains the separator |
| `Strings.JoinSplit` | ai_std_generator.py:219-225 | Joining the pieces of a split restores any text |
| `Strings.JoinIsLossyOnSeparator` | ai_std_generator.py:219-225 | Once any part contains the separator, splitting the cell does not give the parts back. The pieces it gives are a different list that joins to the same cell |
| `Strings.Strip` | ai_std_generator.py:31 | The result is the input without its leading and trailing whitespace. It is empty exactly when the input is all whitespace |
| `Strings.StripIdempotent` | ai_std_generator.py:31 | Stripping twice is stripping once |
| `ApiKey.EffectiveKey` | ai_std_generator.py:31-34 | The page halts exactly when the entry is blank and there is no environment key. A non-blank entry wins after stripping, and a blank entry falls back to the environment key |
| `ApiKey.EnteredKeyIsTrimmed` | ai_std_generator.py:31 | A key typed in the sidebar is used with no surrounding whitespace |
| `Pipeline.MissingTitleReplacesThenStopsRender` | ai_std_generator.py:180-208 | When the parsed records lack a `title`, generation still replaces the list, and no CSV can be produced. When every case before the untitled one renders, the page stops with a `KeyError` on `title` |
| `Pipeline.FailedGenerateKeepsDownload` | ai_std_generator.py:183-185 | A failed generate leaves the download exactly as it was |

## Left out

- Streamlit layout, CSS, expanders, spinner and the download button widget: presentation only. The model stops at the rows of the CSV.
- Image captioning with BLIP (lines 99-117): a machine-learning model. Captions enter the model as a list of strings.
- The OpenAI chat-completion call (lines 133, 164-175): a network client. It is a function parameter from the request (model name, system message, prompt, temperature 0.3, at most 1500 tokens) to an optional reply. A reply whose content is `None` is not modelled.
- `pd.read_json` and `to_dict`: a foreign JSON parser. The reader is a function parameter. The model does not claim that it checks `title` or any other key.
- `DataFrame.to_csv` quoting and escaping: foreign library behaviour. Rows are sequences of cells, not CSV bytes.
- `Export.DownloadCsv`: the case where the records carry a key `Title`, `Steps`, `Expected`, `Folder` or `Tags` of their own is not modelled, so collisions with the renamed columns are not modelled either.
- `Export.DownloadCsv`: when `Expected` is missing, pandas names every missing column in one `KeyError`. The model reports `Expected` only, because `Title` is always present at that point.
- `Export.JoinIfList`: for a list whose items hold the separator, the contract states only that the cell is text. `Strings.JoinIsLossyOnSeparator` shows that such a cell cannot be split back into the list.
- `Export.JoinIfList`: list items are strings. A list holding numbers would make `'\n'.join` raise, and that is not modelled.
- `Records`: JSON numbers and booleans are not distinguished from strings.
- `Export.Renders`: a `title` that is null is treated as a label the expander accepts. How Streamlit treats a non-string expander label is outside the model.
- Loading `.env`, decoding the upload as UTF-8, and `st.stop()`: input and output. Only the rule that picks the effective key, or halts, is modelled.
- `Strings.IsSpace`: it lists the characters for which Python's `str.isspace` is true. No Unicode database lookup is modelled beyond that list.
- Streamlit's widget-state rules beyond "stored value if set, else select-all" are not modelled. In particular, the model does not say whether changing `value=` resets a keyed checkbox.

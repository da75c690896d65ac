# nlp_punchlines: the best-of-K punchline pipeline

`joke_api.py` turns a joke setup into a punchline. It builds the prompt
`"Question: " + setup + " Answer:"` and asks a text generator for `best_of`
completions of it. It cleans each completion: the end-of-sequence token goes,
newlines become spaces, and surrounding whitespace is stripped. It cuts the
punchline out of each cleaned text. A classifier scores each text, split into a
question and an answer, and the punchline of the first best-scoring candidate
is returned.

This project models that pipeline as pure functions and proves what it
guarantees. It is organised in four modules:

- `PyStr` (`py_str.dfy`) gives the Python string operations the pipeline
  relies on their exact Python 3 meaning: `str.find`, slicing with negative
  and out-of-range bounds, `str.replace` (one left-to-right pass; an empty
  pattern inserts the replacement everywhere), and `str.strip` with Python's
  whitespace set.
- `NumPy` (`numpy_reduce.dfy`) models `np.argmax` (the first index of the
  maximum) and `np.max`.
- `JokeApi` (`joke_api.dfy`) models `get_punchline` and the splitting in
  `class_tokenize_function`.
- `JokeScenario` (`scenario.dfy`) works one three-candidate example through
  the model.

The generator and the classifier are not modelled. The generator's outputs are
the parameter `raw`. The classifier's output is the parameter `scores`: one
probability per candidate, given to the question and answer lists that
`ClassifierInputs(CleanAll(raw, eos))` builds.
The end-of-sequence token is the parameter `eos`. A call ends either
`Returned(punchline, reportedMax)` or `Raised(ZeroSizeReduction)`. The value
`reportedMax` is the score the function prints.

Some behaviours of the code are easy to miss:

- The punchline slice adds `len('Answser:')` (8, a misspelt literal) to the
  index of `"Answer:"` (7 characters). So the character right after the marker
  is always dropped, which is usually the space the generator writes there.
- A cleaned text without the marker does not give an empty punchline. `find`
  returns -1, so the punchline is the text from index 7 on. It is empty only
  when the text has at most 7 characters.
- Without the marker, `class_tokenize_function` slices with -1. The question
  is then everything but the last character, and the answer is that last
  character.
- Cleaning is not idempotent in general. Removing every end-of-sequence token
  in one pass can join two halves into a new token (`CleanNotIdempotent`).
  Cleaning is idempotent once the cleaned text holds no token
  (`CleanIdempotent`).
- With `best_of` of zero or less there is no candidate. `np.max` of the empty
  probability array raises. The model returns `Raised` rather than requiring
  `best_of >= 1`.

## Model

| member | source | states |
|---|---|---|
| PyStr.IsSpace | joke_api.py:58 | the whitespace set of `strip()` holds the space, tab, newline and carriage return, and no ASCII letter or digit |
| PyStr.FindFrom | joke_api.py:59 | the search loop returns the first index at or after `from` where the pattern occurs, or -1 when none does |
| PyStr.Find | joke_api.py:59 | `find` returns -1 exactly when the pattern does not occur; otherwise it returns the pattern's first occurrence |
| PyStr.FindCharacterised | joke_api.py:39-40 | `find` equals `i` exactly when `i` is the first occurrence, or when `i` is -1 and there is no occurrence |
| PyStr.SliceIndex | joke_api.py:39-40 | a slice bound in range is kept, one above the length becomes the length, a negative one counts from the end, and one below minus the length becomes 0 |
| PyStr.SliceFrom | joke_api.py:40 | `s[i:]` is a suffix of `s` |
| PyStr.SliceTo | joke_api.py:39 | `s[:j]` is a prefix of `s` |
| PyStr.SliceSplit | joke_api.py:39-40 | `s[:k] + s[k:] == s` for every `k`, including -1 and out-of-range bounds |
| PyStr.InsertEverywhere | joke_api.py:58 | replacing the empty pattern with the empty string leaves the string unchanged |
| PyStr.ReplaceNonEmpty | joke_api.py:58 | a same-length replacement keeps the length, and a shorter one never lengthens the string |
| PyStr.Replace | joke_api.py:58 | `replace` keeps the length for a same-length replacement and never lengthens for a shorter one |
| PyStr.ReplaceAtFind | joke_api.py:58 | with a non-empty pattern and `f` the index `find` gives, `replace` leaves the string alone when `f` is -1; otherwise it copies the text before `f`, puts the replacement for the occurrence there, and continues on the rest after it |
| PyStr.ReplaceFromFirstOccurrence | joke_api.py:58 | the text before the first occurrence is copied unchanged, and that occurrence is the first one replaced |
| PyStr.ReplaceChar | joke_api.py:58 | replacing one character by another maps the string character by character |
| PyStr.ReplaceCharRemoves | joke_api.py:58 | after `replace('\n', ' ')` no newline is left |
| PyStr.ReplaceAbsent | joke_api.py:58 | `replace` of a pattern that does not occur leaves the string unchanged |
| PyStr.RemoveTrailing | joke_api.py:58 | removing a token that ends the string returns the rest, provided the token's first character occurs nowhere before it |
| PyStr.LacksFirstCharacter | joke_api.py:59 | a string lacking the first character of a pattern does not contain the pattern |
| PyStr.InfixContains | joke_api.py:39 | an occurrence inside a slice is also an occurrence in the whole string |
| PyStr.FirstNonSpace | joke_api.py:58 | the forward scan of `strip` stops at the first non-whitespace character at or after its start, or at the end; everything it skipped is whitespace |
| PyStr.EndBeforeSpaces | joke_api.py:58 | the backward scan of `strip` stops after the last non-whitespace character above its lower bound, or at that bound; everything it skipped is whitespace |
| PyStr.Strip | joke_api.py:58 | `strip` returns a slice of `s` with only whitespace around it and no whitespace at either end |
| PyStr.StripUnique | joke_api.py:58 | any string with those two properties is `strip`'s result |
| PyStr.StripNoEdgeSpace | joke_api.py:58 | `strip` leaves a string alone when neither end is whitespace |
| PyStr.StripIdempotent | joke_api.py:58 | stripping twice is the same as stripping once |
| PyStr.StripKeepsLacks | joke_api.py:58 | `strip` introduces no character, so a newline-free string stays newline-free |
| PyStr.StripKeepsAbsence | joke_api.py:39 | `strip` cannot create an occurrence of a substring |
| NumPy.ArgMax | joke_api.py:74 | `np.argmax` returns an in-range index whose value no element exceeds, with every earlier element strictly smaller |
| NumPy.Max | joke_api.py:72 | `np.max` returns a value of the array that no element exceeds |
| NumPy.ArgMaxCharacterised | joke_api.py:74 | an index is the first maximum exactly when it is `np.argmax`'s result |
| NumPy.MaxAtArgMax | joke_api.py:72-74 | the printed maximum is the score at the selected index |
| JokeApi.Prompt | joke_api.py:49 | the setup sits between "Question: " and " Answer:", and the prompt ends with the marker "Answer:" |
| JokeApi.Prompts | joke_api.py:49-51 | `best_of` copies of the prompt, and none when `best_of <= 0` |
| JokeApi.PunchlineAfterPrompt | joke_api.py:49-59 | if the setup has no "Answer:", `find` on an echoed prompt lands on the prompt's own marker and the punchline is the continuation minus its first character |
| JokeApi.NoMarkerBeforePromptEnd | joke_api.py:49 | in an echoed prompt, no "Answer:" starts before the prompt's own marker |
| JokeApi.Clean | joke_api.py:58 | a cleaned text has no newline, no whitespace at either end, and is no longer than the raw text |
| JokeApi.Map | joke_api.py:39-40 | a list comprehension gives one result per element, index for index |
| JokeApi.CleanAll | joke_api.py:58 | one cleaned text per raw generation, index for index |
| JokeApi.CleanIdempotent | joke_api.py:58 | re-cleaning changes nothing once no end-of-sequence token is left, or when the token is empty |
| JokeApi.CleanNotIdempotent | joke_api.py:58 | with the token "ab", "aabb" cleans to "ab", and that cleans again to "" |
| JokeApi.RemoveJoinedToken | joke_api.py:58 | one pass of `replace('ab', '')` over "aabb" leaves a new "ab" |
| JokeApi.CleanIsTokenRemoval | joke_api.py:58 | when removing the token leaves no newline and no edge whitespace, cleaning is only the token removal |
| JokeApi.Punchline | joke_api.py:59 | the punchline is always a suffix of the cleaned text, never made-up text |
| JokeApi.Punchlines | joke_api.py:59 | one punchline per cleaned text, index for index |
| JokeApi.PunchlineSlice | joke_api.py:59 | if "Answer:" first occurs at `i`, the punchline is `x[i+8:]`, empty when the marker ends the text; if it does not occur, the punchline is `x[7:]`, empty when the text has at most 7 characters |
| JokeApi.PunchlineSkipsOneCharacter | joke_api.py:59 | from the marker on, the text is the marker, one skipped character, then the punchline |
| JokeApi.SplitAtMarker | joke_api.py:39-40 | the question and answer parts join back into the text; when the marker occurs, the answer starts with it and the question lacks it; otherwise the answer is the last character alone |
| JokeApi.PrefixContains | joke_api.py:39 | an occurrence in `x[:k]` is an occurrence in `x` that ends by `k` |
| JokeApi.SplitWithoutMarker | joke_api.py:39-40 | without the marker, the question is all but the last character and the answer is the last character |
| JokeApi.Question | joke_api.py:39 | the question is stripped, no longer than the text, and never contains "Answer:" |
| JokeApi.Answer | joke_api.py:40 | the answer is stripped, no longer than the text, and at most one character when the text lacks "Answer:" |
| JokeApi.QuestionAnswerShape | joke_api.py:39-40 | after stripping, the answer still starts with "Answer:" and the question still lacks it |
| JokeApi.StripKeepsMarker | joke_api.py:40 | stripping a string that starts with "Answer:" keeps that start |
| JokeApi.ClassifierInputs | joke_api.py:38-41 | one question and one answer per cleaned text, index for index |
| JokeApi.Select | joke_api.py:72-74 | `np.max` raises exactly on no scores; otherwise the punchline returned is at the first index of a maximal score, and the reported value is that score, which no score exceeds |
| JokeApi.GetPunchline | joke_api.py:44-74 | raises exactly when `best_of < 1`; otherwise returns the punchline of the cleaned generation at the first maximal score, and reports that score |
| JokeApi.CandidatePunchlines | joke_api.py:58-59 | the punchline list holds, at each index, the punchline of that generation cleaned |
| JokeApi.ReturnsFirstMax | joke_api.py:72-74 | whichever index is the first maximum of the scores, its punchline and score are what `get_punchline` returns |
| JokeApi.SingleCandidate | joke_api.py:72-74 | with `best_of == 1` the single candidate's punchline is returned, whatever its score |
| JokeApi.TieGoesToEarliest | joke_api.py:74 | when candidates share the maximal score, the punchline returned is that of a first-maximum candidate no later than any of them |
| JokeScenario.CleanEchoedGeneration | joke_api.py:58 | cleaning "prompt + continuation + token" gives "prompt + continuation" when the token's first character, newlines and edge whitespace are absent |
| JokeScenario.CandidatePunchline | joke_api.py:80-83 | for the frogs setup, the punchline of "prompt + continuation + token" is the continuation without its leading space |
| JokeScenario.FirstOfThreeWins | joke_api.py:72-74 | for any setup, token and three generations, scores 0.9, 0.2 and 0.4 select the first candidate and report 0.9 |
| JokeScenario.FrogsAndCheese | joke_api.py:80-83 | the three-candidate frogs example returns "Because it was Brie-lliant." and reports 0.9 |

## Left out

- `init` (joke_api.py:7-35) is not modelled. It loads checkpoints, detects a GPU, places models on devices and sets module globals. All of it is I/O and framework code.
- `mtools.generate` and `mtools.classify_punchlines` are not modelled. They are neural-model inference: their results are the `raw` and `scores` parameters. One output per prompt and one probability per candidate are required of them. If they raise on an empty batch, the model still gives an exception, though the model names a different one.
- `model_tools` is not part of this model.
- The `vanilla_gpt2` flag only chooses which generator produces `raw`, so it has no counterpart.
- The BERT tokenizer call (padding and truncation to 60 tokens) is not modelled. Neither is the `Dataset` glue: `from_dict`, `map`, `remove_columns`, `set_format`. These are library code. The model stops at the question and answer lists they receive.
- Probabilities are `real` numbers. Only their order matters. NaN and floating-point rounding are not modelled.
- The `print` of the best score is modelled only by its value, `reportedMax`. The `__main__` demo is not modelled beyond the example in `JokeScenario`.
- Python strings may hold lone surrogate code points. Dafny's `char` cannot, so such strings are not modelled.

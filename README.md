# The Oracle's Chronicle, verified model

The Oracle's Chronicle is a text adventure. A generative text service
writes each scene and the choices that follow it. The player picks a
choice by its key, and the story history grows with every pick. This
project models the game's logic in Dafny and proves what it does:

- **The reply parser (`parse_ai_response`), in `oracle.dfy`.**
  - It cuts the reply at the first `CHOICES:`.
  - The scene is the text before that marker, with every `SCENE:` removed and then stripped.
  - The text after the marker is stripped and cut into lines. Each line is split at its first `". "` into a stripped key and a stripped description.
  - The keys go into an insertion-ordered dictionary.
  - A missing marker, or a line without `". "`, gives the fixed fallback turn instead.
  - Python's `split`, `replace`, `strip` and `split(sep, 1)` are modelled in `pystr.dfy`. The dictionary is modelled in `pydict.dfy`.
  - The parser is both a specification function (`Parse`) and a method that fills the dictionary in a loop, as the source does (`ParseAiResponse`, `ParseChoices`).
- **The turn fetch (`get_ai_turn`), in `oracle.dfy`.**
  - The history is embedded verbatim between a fixed prompt head and tail.
  - The text generator is a parameter: a function from the prompt to `Option<string>`, where `None` is a call that raised.
- **The game loop (`play_game`), in `game.dfy`.**
  - The method `PlayGame` keeps the source's two loops. It takes the turn sources as a parameter and is proved equal to the recursive specification `Run` over the same sources. With the sources `Fetchers(generator)`, which call `get_ai_turn` with the generator's behaviours, `Run` is `Play`, the game against that generator.
  - The player's lines are a finite sequence of inputs.
  - The generator is a finite sequence of behaviours: the i-th behaviour answers the i-th request.
  - The result is the final history, the history sent with each request, the number of inputs read, and why the game stopped.

The main results:

- **Round trip (`ParseRender`).** A reply written in the format the prompt asks for parses back to its scene and its choices.
- **Always at least one choice.** Every parse yields a dictionary with at least one choice, so the loop never meets a dead end (`PlayEnds`).
- **`quit` comes first.** `quit` is checked before the key lookup (`QuitFirst`).
- **Invalid input is ignored (`InvalidInputIgnored`).**
- **The history chain (`PlayEnds`).** Each request's history is the previous one followed by `"\nPlayer chose to: "` and the description of one of the choices of the turn the previous request was answered with.
- **Fallback choice `2` does not end the game.** "End the journey for now." is a path like any other, and choosing it makes a new request (`FallbackKeepsPlaying`).

Behaviours of the code worth knowing:

- every `SCENE:` in the scene part is removed, not only a leading one (line 58);
- an empty scene is accepted (line 58 places no condition on it);
- a blank line among the choices makes the whole reply fall back, because the blank line has no `". "` to split at (lines 60, 64 and 68-75).

## Model

| member | source | states |
|---|---|---|
| PyStr.LStrip | oracle_chronicle.py:58 | the result is a suffix of the input, everything removed is white space, and the result does not start with white space |
| PyStr.RStrip | oracle_chronicle.py:58 | the result is a prefix of the input, everything removed is white space, and the result does not end with white space |
| PyStr.Strip | oracle_chronicle.py:58 | the result has no white space at either end and is empty exactly when the input is all white space |
| PyStr.StripPadded | oracle_chronicle.py:58 | stripping a text with no white space at its ends, padded by white space on both sides, gives back that text |
| PyStr.StripIdempotent | oracle_chronicle.py:58 | stripping twice is stripping once |
| PyStr.Find | oracle_chronicle.py:57 | the result is the first index where the pattern occurs, and `None` exactly when it does not occur |
| PyStr.Split | oracle_chronicle.py:57 | joining the pieces with the separator gives back the text; no piece holds the separator; there is one piece exactly when the separator does not occur |
| PyStr.SplitAtFirst | oracle_chronicle.py:57 | the first piece ends at the first occurrence, and the rest is the split of the text after it |
| PyStr.SplitOnChar | oracle_chronicle.py:60 | splitting `x + c + y` on the character `c` is the split of `x` followed by the split of `y` |
| PyStr.SplitJoin | oracle_chronicle.py:60 | splitting on a character undoes joining with it when no piece holds the character |
| PyStr.Replace | oracle_chronicle.py:58 | a text without the pattern is returned unchanged |
| PyStr.ReplaceIsJoinOfSplit | oracle_chronicle.py:58 | replacing is joining the split pieces with the replacement |
| PyStr.ReplaceLeading | oracle_chronicle.py:58 | a leading occurrence is replaced and a rest without the pattern is kept |
| PyStr.SplitOnce | oracle_chronicle.py:64 | `None` (Python's `ValueError` on unpacking) exactly when the separator is absent; otherwise the two pieces around the first occurrence reassemble the text |
| PyStr.SplitOnceIsSplitHead | oracle_chronicle.py:64 | `split(sep, 1)` gives the same first piece as `split(sep)` |
| PyDict.Put | oracle_chronicle.py:65 | `d[k] = v` maps `k` to `v`, keeps every other entry, keeps an existing key's place, and appends a new key |
| PyDict.FromPairs | oracle_chronicle.py:61-65 | the dictionary filled pair by pair is well formed and non-empty when there are pairs |
| PyDict.FromPairsKeys | oracle_chronicle.py:62-65 | its keys are exactly the keys of the pairs |
| PyDict.FromPairsValue | oracle_chronicle.py:62-65 | a key maps to the description of the last pair carrying it |
| PyDict.FromPairsOrder | oracle_chronicle.py:62-65 | its keys are listed in the order in which they first appear |
| Oracle.ChoiceLine | oracle_chronicle.py:64-65 | a line fails exactly when it holds no `". "` |
| Oracle.PairsAt | oracle_chronicle.py:62-65 | the k-th pair is the stripped key and description of the k-th line |
| Oracle.ChoiceLines | oracle_chronicle.py:60 | the choices text always yields at least one line |
| Oracle.ParseParts | oracle_chronicle.py:58-67 | a successful parse has a well-formed dictionary with at least one key |
| Oracle.TryParse | oracle_chronicle.py:57-67 | a successful parse has a well-formed dictionary with at least one key |
| Oracle.Parse | oracle_chronicle.py:56-75 | the parser never fails: every turn, parsed or fallback, has a well-formed dictionary with at least one choice |
| Oracle.ParseAiResponse | oracle_chronicle.py:51-75 | the method that runs the source's steps returns `Parse` of the reply |
| Oracle.ParseChoices | oracle_chronicle.py:61-65 | the in-place loop succeeds exactly when every line has `". "`, and then builds the dictionary of the lines' pairs |
| Oracle.FirstMarker | oracle_chronicle.py:57 | in `a + "CHOICES:" + rest` with no marker in `a`, the first marker is the one after `a` |
| Oracle.NoMarkerFallback | oracle_chronicle.py:57-75 | a reply without `CHOICES:` gives exactly the fallback turn |
| Oracle.ParseShape | oracle_chronicle.py:57-60 | the scene part is the text before the first marker, and the choices part runs to the second marker if there is one |
| Oracle.SecondMarkerIgnored | oracle_chronicle.py:57-60 | text after a second `CHOICES:` does not change the parse |
| Oracle.ParsedChoice | oracle_chronicle.py:58-67 | when every line splits, the parse succeeds, the scene is the text before the marker without `SCENE:` and stripped, and each key maps to its last description |
| Oracle.ParsedKeyOrder | oracle_chronicle.py:62-65 | the parsed keys come from the lines, in the order of their first lines |
| Oracle.MalformedLineFallback | oracle_chronicle.py:62-75 | one line without `". "` gives the fallback turn, and no partial dictionary is kept |
| Oracle.EmptyChoicesFallback | oracle_chronicle.py:60-75 | choices text that is all white space gives the fallback turn |
| Oracle.BlankLineFallback | oracle_chronicle.py:60-75 | a blank line between two choice lines gives the fallback turn |
| Oracle.EmptyKeyLine | oracle_chronicle.py:64-65 | a line `". desc"` gives the empty key |
| Oracle.KeyedLine | oracle_chronicle.py:64-65 | a line `key. desc` whose key has no `". "` splits into the stripped key and the stripped description |
| Oracle.RenderedScene | oracle_chronicle.py:58 | the scene line `SCENE: scene` has no marker and parses back to the scene |
| Oracle.RenderedChoices | oracle_chronicle.py:60 | the rendered choices have no marker and split back into their lines |
| Oracle.RenderedPairs | oracle_chronicle.py:62-65 | each rendered line splits back into its own key and description |
| Oracle.ParseRender | oracle_chronicle.py:57-67 | a reply in the format the prompt asks for (lines 33-37) parses back to its scene and to the dictionary of its choices |
| Oracle.CaveReply | oracle_chronicle.py:51-67 | `"SCENE: You enter a cave.\nCHOICES:\n1. Light a torch.\n2. Turn back."` parses to that scene with choices `1` and `2`, in order |
| Oracle.Prompt | oracle_chronicle.py:23-41 | the prompt is the fixed head, the history verbatim, then the fixed tail |
| Oracle.PromptInjective | oracle_chronicle.py:23-41 | different histories give different prompts |
| Oracle.GetAiTurn | oracle_chronicle.py:17-49 | `None` exactly when the generator call fails; otherwise the parse of the reply, which has at least one choice |
| Game.AwaitChoice | oracle_chronicle.py:111-115 | a chosen key is one of the turn's keys, and the wait reads only forward, never past the end of the input |
| Game.AwaitChoiceSpec | oracle_chronicle.py:111-115 | the wait ends on the first input that is `quit` or a key, checking `quit` first; it ends without reading exactly when the current text is already a key, and otherwise a chosen key is the last input read; it reports closed input only when no input remains that is `quit` or a key |
| Game.Continue | oracle_chronicle.py:95-126 | the rest of the game only appends to the requests and to the history, and reads only forward |
| Game.FetchersAt | oracle_chronicle.py:17-49 | the i-th turn source answers a history as `get_ai_turn` does with the i-th behaviour, and fails exactly when that behaviour fails on the prompt |
| Game.FetchersOffer | oracle_chronicle.py:51-75 | every turn a turn source answers offers at least one choice |
| Game.FetchersAnswered | oracle_chronicle.py:93-98 | the turn sources answered the first `n` requests exactly when the generator answered their prompts |
| Game.Play | oracle_chronicle.py:79-126 | `play_game` with the generator's behaviours: the final history starts with the opening text, there is at most one request per behaviour, and no more inputs are read than there are |
| Game.Run | oracle_chronicle.py:79-126 | the final history starts with the opening text, there is at most one request per turn source, and no more inputs are read than there are |
| Game.PlayGame | oracle_chronicle.py:79-126 | the method with the source's two loops returns the ending that `Run` specifies for the same turn sources |
| Game.ContinueEnds | oracle_chronicle.py:95-126 | the loop invariant holds to the end (see `PlayEnds`) |
| Game.RunEnds | oracle_chronicle.py:89-126 | over any turn sources that always offer a choice, the first request carries the opening text and the ending is settled, as `PlayEnds` states |
| Game.PlayEnds | oracle_chronicle.py:89-126 | the first request carries the opening text. Each later request is the previous one followed by `"\nPlayer chose to: "` and the description of one of the choices of the turn the previous request was answered with; when the behaviours run out, the final history is the last request followed by one such choice. It never stops for lack of choices. A stop on `quit` follows reading `quit`, and a stop on closed input follows reading every input |
| Game.PlayRequests | oracle_chronicle.py:93-98 | every generator call but the last was answered, and the game stops as unavailable exactly when the last call failed |
| Game.FirstRequestFails | oracle_chronicle.py:93-98 | a failed first request ends the game before any input is read |
| Game.AlwaysAnswered | oracle_chronicle.py:95-98 | with a generator that always answers, the game ends only by `quit`, closed input or running out of behaviours |
| Game.QuitFirst | oracle_chronicle.py:112-115 | the first `quit` ends the game with no further request, even when `quit` is a key |
| Game.AwaitSkip | oracle_chronicle.py:112-115 | which non-key was typed last does not affect the rest of the wait |
| Game.InvalidInputIgnored | oracle_chronicle.py:112-115 | an input that is neither `quit` nor a key changes nothing but the read position |
| Game.ChoiceAdvances | oracle_chronicle.py:118-126 | choosing a key appends `"\nPlayer chose to: "` and its description, so the history grows strictly; the next request then carries the new history, or the game ends as out of behaviours when none is left |
| Game.FallbackKeepsPlaying | oracle_chronicle.py:118-126 | choosing `2` on the fallback turn ("End the journey for now.") makes a new request instead of ending the game |

## Left out

- Configuring and calling the `google.generativeai` client (lines 6, 11-13, 44) is not modelled. The model passes a generator as a parameter, and any exception from the call, or from reading the reply's text, is `None`.
- Printed output is not modelled: the banner, the scenes, the choices and the error messages (lines 48, 69-70, 82-86, 92, 97, 101-108, 119-120). Screen clearing and `time.sleep` are not modelled either.
- `discuss_ethics` (lines 128-153) only prints fixed text and is not part of this model.
- The `__main__` wrapper (lines 156-163) is not part of this model. In Python, `input()` at end of file raises `EOFError`, which ends `play_game` and is caught there. The model reports this as `InputClosed`.
- Game.Play: the generator is a finite sequence of behaviours, and the game stops as `GeneratorExhausted` when it is used up. Python has no such bound. The bound is needed because a turn whose keys include `""` takes that choice without reading input (line 111), so the source can loop without reading anything for as long as the generator keeps offering `""`.
- The game loop is written over turn sources: each source is a function from the history to an optional turn. `PlayGame` takes them as a parameter. `Fetchers(generator)` builds them from the generator behaviours with `get_ai_turn`, and `Play` is `Run` over those sources.
- Game.PlayEnds does not state which input chose each path; it states how requests and the history are linked. The step-by-step link between inputs and choices is in `AwaitChoice` and `ChoiceAdvances`.
- PyStr.Strip uses a fixed set of white-space characters: the 29 characters for which Python's `str.isspace()` holds. That set depends on the Unicode version Python ships with.
- Python strings may hold lone surrogate code points, but Dafny's `char` cannot.
- The prompt asks for exactly three choices. The parser does not check this, and neither does the model.
- Determinism of the parser is not stated as a lemma, because every Dafny function is deterministic.

# Password generator core, modelled in Dafny

This project models the service side of a character-level password generator. A FastAPI endpoint, `/generate-password`, takes a password type (`cap`, `word`, `num` or `special`), a seed, a length and a temperature. It runs the chosen category's trained model autoregressively and replies with JSON. The model covers two parts of `app.py`:

- **The engine** (`generate_password`). It encodes the seed through `char_to_index`. Then it runs up to `length` iterations. Each iteration front-pads the running index sequence to the model's window width, asks the model for one index, and maps that index back through `index_to_char`. A missing or empty character stops the loop. The result is the seed followed by the generated characters.
- **The facade** (the `generate` endpoint). It rejects unknown password types before it touches any engine. It turns any exception of the engine into `{"error": str(e)}`. On success it replies with the password, the echoed type and seed, and the password's actual length.

Layout:

- `results.dfy`: the `Option` and `Result` wrappers.
- `vocabulary.dfy`: a category's vocabulary and the encoding of the seed.
- `window.dfy`: the padded window the model sees (`pad_sequences` with `padding='pre'` and the defaults `truncating='pre'`, value 0).
- `engine.dfy`: the loop, as the method `GeneratePassword` proved equal to the functions `Run` and `PasswordOf`, plus the lemmas about them.
- `service.dfy`: the endpoint as the function `Generate`, plus its lemmas.

The model query, the temperature reweighting and the weighted random draw (`app.py:39-46`) form one step, the `Sampler` oracle. It maps the iteration number and the padded window to the drawn index, or to the message of the exception that step raised. Because the iteration number is an input, one request's draws can differ even on equal windows, as random sampling does. The temperature is part of that oracle. Per request, the facade gets a total map from each category to its vocabulary and sampler. Those are the four models and vocabularies loaded at startup, together with this request's draws.

## Model

| member | source | states |
|---|---|---|
| `Vocabulary.Encode` | app.py:35 | Encoding succeeds exactly when every seed character is in `char_to_index`. On success it gives one index per character, each the table's entry for that character. On failure it names the leftmost unknown character. |
| `Vocabulary.FirstUnknownReported` | app.py:35 | If position k holds the first unknown seed character, the encoding fails with exactly that character. |
| `Vocabulary.Lookup` | app.py:47 | `index_to_char.get(k, '')`: the result is empty exactly when `k` has no entry or an empty one. Otherwise it is that entry. |
| `Window.Pad` | app.py:38 | The window has exactly `max_length` entries. Position k holds 0 while it falls in the padding in front, and otherwise the matching entry of the sequence's last `max_length` indices. |
| `Window.PadSlide` | app.py:37-38 | Appending one index to the running sequence slides a non-empty window by one place: the oldest entry drops out and the new index comes in last. |
| `Engine.Iterations` | app.py:37 | The number of times `range(length)` runs: none for a zero or negative length, and `length` otherwise. |
| `Engine.Join` | app.py:55 | `''.join`: joining non-empty strings gives at least one character per string, and joining strings of at most one character gives at most one per string. |
| `Engine.JoinSingles` | app.py:55 | Joining one-character strings gives a string of the same length whose k-th character is the k-th string. |
| `Engine.Extend` | app.py:37-53 | The remaining iterations only add steps, never beyond the budget of `length` iterations. The only error is a fault of the model step. |
| `Engine.ExtendDraws` | app.py:37-53 | Each step the iterations add is the index the oracle drew on the padded running sequence, and its `index_to_char` entry is non-empty. Ending before the budget means the next draw had no character. |
| `Engine.ExtendFollowsTrace` | app.py:37-53 | From any prefix of a trace of the oracle's draws, the remaining iterations finish exactly that trace. |
| `Engine.RunIsTrace` | app.py:35-53 | For a seed that encodes, the loop yields the steps `t` if and only if `t` is the trace of the draws: every step was drawn on the padded running sequence and had a character, and a short trace ends at a draw without one. |
| `Engine.Run` | app.py:35-53 | The seed encoding followed by the loop. It fails with an unknown-character error exactly when the seed does not encode. On success it takes at most `length` steps, each with one character and one index. |
| `Engine.PasswordOf` | app.py:32-55 | What `generate_password` returns or raises. It succeeds exactly when the loop does, passes the loop's error through unchanged, and a password it returns starts with the seed. |
| `Engine.GeneratePassword` | app.py:32-55 | The loop method returns exactly `PasswordOf`. It makes at most `length` model queries, each on a window of exactly `max_length` entries. It makes none when a seed character is unknown. |
| `Engine.ZeroLengthReturnsSeed` | app.py:35-55 | With `length <= 0` no iteration runs. A known seed comes back unchanged, and a seed with an unknown character still fails. |
| `Engine.PasswordBounds` | app.py:34-55 | A successful password starts with the seed. With single-character vocabulary entries, its length is the seed's length plus the number of generated steps, and at most the seed's length plus `length`. |
| `Engine.UnknownSeedCharFailsFast` | app.py:35 | A seed with an unknown character raises the lookup error for the first such character, and no partial password is produced. |
| `Engine.ErrorsExplained` | app.py:35-46 | Generation fails with an unknown-character error if and only if the seed holds a character missing from the vocabulary. That character comes from the seed. Every other failure is a fault of the model step. |
| `Engine.EarlyStop` | app.py:47-55 | A password shorter than the seed plus `length` was cut short by a drawn index whose `index_to_char` lookup is missing or empty, not by an error. |
| `Engine.EncodeAppended` | app.py:52-53 | Appending to an encodable seed characters that the reverse table gave for some indices appends exactly those indices to its encoding, when the reverse table undoes the forward one and holds single characters. |
| `Engine.RunningSequenceIsEncoding` | app.py:35-53 | If the reverse table undoes the forward one and holds single characters, the running index sequence (seed encoding plus appended indices) is the encoding of the password produced. |
| `Service.Name` | app.py:22 | Each category's name is one of the four accepted `ptype` values. |
| `Service.ParsePType` | app.py:65 | A type is accepted exactly when it is one of `cap`, `word`, `num`, `special`, and it names the category it is parsed to. |
| `Service.ParseName` | app.py:22 | Each category's name parses back to that category. |
| `Service.CharRepr` | app.py:82-83 | The message of an unknown-character `KeyError` is the character in Python quotes. For ordinary characters this is the character between single quotes. |
| `Service.CharReprIdentifies` | app.py:82-83 | Distinct unknown characters give distinct error messages, so the message identifies the character. |
| `Service.Message` | app.py:83 | `str(e)`: an unknown-character error gives a quoted message, and a model-step fault passes its own message through. |
| `Service.Generate` | app.py:57-83 | An invalid type gives exactly the error "Invalid password type". For a valid type, the reply is a success exactly when the category's engine succeeds, with that engine's password. Otherwise it is the engine's error message. A success echoes type and seed, starts with the seed, and reports the password's own length. |
| `Service.InvalidTypeSkipsEngine` | app.py:65-66 | An invalid type gets the same error reply whatever engines are loaded, so no engine is consulted. |
| `Service.UnknownSeedCharReported` | app.py:68-83 | A seed character missing from the category's vocabulary becomes an error reply naming the first such character, never a password. |
| `Service.SuccessLengthBounds` | app.py:76-81 | The reported length is at least the seed's length. When the category's reverse table holds single characters, it is also at most the seed's length plus the requested length. |
| `Service.ZeroLengthEchoesSeed` | app.py:68-81 | With `length <= 0` and a known seed, the reply is the seed itself as the password, with its own length. |

## Left out

- The browser UI (`streamlit_app.py`) is left out: it holds only widgets, styling and an HTTP client call.
- Loading models and vocabularies at startup (`app.py:19-30`) is file I/O. The vocabularies are given as immutable values, one total map entry per category.
- `model.predict` (`app.py:39`) is opaque, and so are the temperature reweighting with `log`/`exp`/normalisation and `np.random.choice` (`app.py:42-46`). Together they are the `Sampler` oracle. The model makes no claim about the temperature. The code never validates it, so a non-positive temperature is not rejected here either; any exception it causes is one of the oracle's faults.
- Nothing constrains the drawn index to `range(len(preds))`. Every property holds for any drawn integer.
- The conversion of the window to `int32` inside `pad_sequences` is not modelled. Indices are unbounded integers.
- The Keras failure for `maxlen=0` on a non-empty sequence is not modelled. `Pad` gives the empty window then.
- CORS middleware, FastAPI routing, async handling, the query-parameter defaults (`word`, `ab`, 10, 0.8), the 422 reply to a non-integer `length`, and the static `root()` description (`app.py:8-16`, `app.py:85-99`) are framework plumbing with no logic.
- `Service.CharRepr`: only escapes the quote, backslash, newline, carriage return and tab. Python's `\x..`/`\u..` escapes for other non-printable characters are not modelled.
- Exceptions outside Python's `Exception` hierarchy, which the endpoint does not catch, are not modelled. All engine failures are caught.
- `Service.SuccessLengthBounds`: the upper bound on the reported length is stated only for categories whose reverse table holds single characters, for the same reason as the next line.
- `Engine.PasswordBounds`: the upper length bound is stated only for vocabularies whose reverse table holds single characters. With longer entries, `''.join` can make the password longer than the seed plus `length`.
- The loop appends each drawn index to the running sequence instead of re-encoding the text produced so far. `Engine.RunningSequenceIsEncoding` shows the two agree when the reverse table undoes the forward one.
- A length of 0 does not always return the seed. The seed is encoded before the loop, so an unknown seed character still fails (`Engine.ZeroLengthReturnsSeed`).
- The code never checks the temperature, so a zero or negative temperature is not rejected. Whatever the sampling step does with it is inside the `Sampler` oracle.

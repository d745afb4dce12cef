# Custom proxy provider: key check and part normalisation

This project models the two pieces of logic in the custom-proxy LLM provider. This provider
is an adapter for an OpenAI-compatible chat-completion endpoint.

- **Key validation** (`CustomProxyProvider.validateApiKey`). A key that is not a non-empty
  string is rejected with the format error, and no probe request is made. Otherwise the
  outcome of one probe request is classified. A 2xx status or 404 accepts the key. 401 or
  403 rejects it with the authentication error. Every other status accepts it. A
  network-level exception rejects it with the network error. Module `KeyValidation` models
  this as a total function over the key (`StringKey(text)` or `NonStringKey`) and the probe
  `Outcome` (`Status(code)` or `NetworkError`).
- **Part normalisation** (the loop at the start of `createLLM().generateContent`). Each
  part is a string, an object with `inlineData {mimeType, data}`, some other value, or
  null/undefined. The first string part containing `"You are"` becomes the system prompt.
  Every other string becomes a text block. Every inline-data part becomes an image block
  whose URL is `data:<mimeType>;base64,<data>`. Other values are dropped. The loop then
  builds at most two messages. The system message comes first and appears only when a
  prompt was found. The user message appears only when there is at least one block, and
  its content is a bare string when it is a single text block. Module `PartNormalization`
  models the loop as the method `GenerateMessages`. Its contract ties the result to
  `Normalize`, an index-based definition: the system index is the first candidate, and the
  user blocks are the blocks of all other parts, in order. The lemmas state the properties
  of `Normalize`.
- A null or undefined part makes `part.inlineData` throw a TypeError, so `generateContent`
  rejects before any request is sent. The model returns `Failure(PartAccessError(i))` for
  the first such index `i`.

Helper modules: `Wrappers` (Option, Result), `Strings` (`IndexOf` and `Includes`, as
JavaScript's `indexOf` and `includes`), and `Sequences` (the first index that satisfies a
predicate).

## Model

| member | source | states |
|---|---|---|
| `KeyValidation.ValidateApiKey` | src/features/common/ai/providers/custom-proxy.js:6-33 | total over every key and outcome; `success` holds exactly when `error` is absent; a malformed key gives the format error, and a well-formed key never does |
| `KeyValidation.ClassifyOutcome` | src/features/common/ai/providers/custom-proxy.js:12-32 | classifying a probe outcome never yields the format error: a failure carries the authentication or the network message |
| `KeyValidation.MalformedKeyRejected` | src/features/common/ai/providers/custom-proxy.js:8-10 | a non-string or empty key gives `{success:false}` with the format error |
| `KeyValidation.MalformedKeyIgnoresProbe` | src/features/common/ai/providers/custom-proxy.js:8-14 | for a malformed key the result is the same whatever the probe would return, so the probe is not consulted |
| `KeyValidation.OkOrNotFoundAccepted` | src/features/common/ai/providers/custom-proxy.js:21-23 | a status in 200..299 (`response.ok`) or 404 gives `{success:true}` with no error |
| `KeyValidation.AuthStatusRejected` | src/features/common/ai/providers/custom-proxy.js:24-25 | 401 or 403 gives `{success:false}` with the authentication error |
| `KeyValidation.OtherStatusAccepted` | src/features/common/ai/providers/custom-proxy.js:21-28 | every status other than 401 and 403 (3xx, other 4xx, 5xx, anything) gives `{success:true}` |
| `KeyValidation.NetworkFailureRejected` | src/features/common/ai/providers/custom-proxy.js:29-32 | a network exception gives `{success:false}` with the network error |
| `KeyValidation.ValidationSucceedsIff` | src/features/common/ai/providers/custom-proxy.js:8-32 | success holds exactly when the key is a non-empty string and the probe returned a status other than 401 and 403 |
| `KeyValidation.ErrorMessagesDistinct` | src/features/common/ai/providers/custom-proxy.js:8-32 | the format, authentication and network messages differ, so a failure's message names its cause |
| `Strings.IndexOf` | src/features/common/ai/providers/custom-proxy.js:114 | the result is the first index at which the needle occurs; none means no occurrence anywhere |
| `Strings.IncludesIff` | src/features/common/ai/providers/custom-proxy.js:114 | `s.includes(t)`, defined character by character, holds exactly when `t` occurs in `s` at some index |
| `Strings.IncludesIffIndexOf` | src/features/common/ai/providers/custom-proxy.js:114 | `includes` and `indexOf` agree: `t` is included exactly when `indexOf` finds an index |
| `Strings.IsPrefixIff` | src/features/common/ai/providers/custom-proxy.js:114 | the character-wise prefix test holds exactly when `t` occurs at index 0 of `s` |
| `PartNormalization.GenerateMessages` | src/features/common/ai/providers/custom-proxy.js:107-139 | the loop and the message building produce exactly `Normalize(parts)`: the TypeError of the first nullish part, or the messages built from the first candidate prompt and the user blocks |
| `PartNormalization.LoopStateMatchesSpec` | src/features/common/ai/providers/custom-proxy.js:110-128 | after any prefix of the parts, the loop's `systemPrompt` is `''` exactly when no candidate was seen, and otherwise the first candidate; `userContent` equals the index-based user blocks |
| `PartNormalization.NormalizeFromLoopState` | src/features/common/ai/providers/custom-proxy.js:110-139 | with no null part, building the messages from the final loop state gives the normalised result |
| `PartNormalization.NormalizeAtNullish` | src/features/common/ai/providers/custom-proxy.js:112-119 | the first null or undefined part decides the TypeError, whatever the earlier and later parts hold |
| `PartNormalization.CandidateNonEmpty` | src/features/common/ai/providers/custom-proxy.js:114 | a string holding the marker is not empty, so `systemPrompt === ''` means that no prompt has been chosen yet |
| `PartNormalization.SystemPromptIsFirstCandidate` | src/features/common/ai/providers/custom-proxy.js:112-118 | part `k` is the system prompt if and only if it is a string containing `"You are"` and no earlier part is such a string |
| `PartNormalization.UserBlocksSnoc` | src/features/common/ai/providers/custom-proxy.js:112-128 | one more part changes the state as one loop step does: it becomes the prompt only if none was found and it is a candidate; otherwise its block is appended |
| `PartNormalization.LaterCandidateIsUserText` | src/features/common/ai/providers/custom-proxy.js:114-118 | a string containing `"You are"` after the system prompt becomes a user text block |
| `PartNormalization.InlineDataIsImage` | src/features/common/ai/providers/custom-proxy.js:119-126 | an inline-data part becomes the image block with url `"data:" + mimeType + ";base64," + data` |
| `PartNormalization.DataUrlShape` | src/features/common/ai/providers/custom-proxy.js:124 | a data URL starts with `data:`, followed by the MIME type, `;base64,` and the payload |
| `PartNormalization.SeparatorFirstAt` | src/features/common/ai/providers/custom-proxy.js:124 | in a data URL whose MIME type holds no `;base64,`, the first separator is the one placed after the MIME type |
| `PartNormalization.DataUrlRoundTrip` | src/features/common/ai/providers/custom-proxy.js:124 | the data URL splits back into its MIME type and payload when the MIME type holds no `;base64,` |
| `PartNormalization.UserBlockOfPart` | src/features/common/ai/providers/custom-proxy.js:112-127 | every part other than the system prompt that yields a block has that block among the user blocks |
| `PartNormalization.BlocksOfAppend` | src/features/common/ai/providers/custom-proxy.js:112-128 | the blocks of a concatenation are the concatenation of the blocks, so the input order is kept |
| `PartNormalization.BlockPosition` | src/features/common/ai/providers/custom-proxy.js:112-128 | the block of part `i` lies at index `|BlocksOf(ps[..i])|` of the block list |
| `PartNormalization.BlockOrder` | src/features/common/ai/providers/custom-proxy.js:112-128 | an earlier part's block comes before the blocks of all later parts |
| `PartNormalization.DropBlockless` | src/features/common/ai/providers/custom-proxy.js:112-128 | removing a part that yields no block leaves the list of blocks unchanged |
| `PartNormalization.OtherPartDropped` | src/features/common/ai/providers/custom-proxy.js:119-127 | removing a part that is neither a string nor inline data leaves the messages unchanged |
| `PartNormalization.UserContentLossless` | src/features/common/ai/providers/custom-proxy.js:133-137 | the user content is a bare string exactly when there is one block and it is a text block; expanding the content gives back the blocks |
| `PartNormalization.MessagesShape` | src/features/common/ai/providers/custom-proxy.js:130-139 | there are at most two messages; the system message is present exactly when a prompt was found, comes first and holds the prompt; the user message is present exactly when there is a user block, comes last and holds the user blocks |
| `PartNormalization.SystemThenUser` | src/features/common/ai/providers/custom-proxy.js:107-139 | a candidate string followed by a non-candidate string gives the system message with the first, then a user message with the second as a bare string |
| `PartNormalization.TextAndImage` | src/features/common/ai/providers/custom-proxy.js:107-139 | a non-candidate string followed by an inline-data part gives one user message whose content is the text block, then the image block |
| `PartNormalization.SystemThenUserExample` | src/features/common/ai/providers/custom-proxy.js:107-139 | `["You are a helpful assistant", "Hello"]` gives a system message, then a user message with the bare string `"Hello"` |
| `PartNormalization.TextAndImageExample` | src/features/common/ai/providers/custom-proxy.js:107-139 | `["Hello", {inlineData: image/png, "abc"}]` gives one user message whose content is a text block then the image block `data:image/png;base64,abc` |

## Left out

- The probe request in `validateApiKey` (lines 14-19) is network I/O. Its outcome is an input: a status code or a network error.
- `callApi` (lines 73-104) is left out because it is network I/O and reads remote JSON. This covers the POST, the error for a non-2xx response, and reading `choices[0].message.content`.
- The result wrapper of `generateContent` (lines 141-148) and `chat` (lines 152-154) are left out for the same reason: they only forward what `callApi` returns.
- `createStreamingLLM` (lines 168-211) is left out because it passes a live response stream through unchanged.
- `createSTT` (lines 40-51) is left out because it is a placeholder that only logs.
- The configuration defaults (model, temperature, max tokens, base URL) are left out because they are only forwarded, never computed with.
- All `console.*` logging is left out.
- The asynchronous execution is not modelled. A rejected promise is a `Failure` value.
- Strings are sequences of Unicode scalar values, not UTF-16 code units. `includes` gives the same answer on well-formed strings, but lone surrogates cannot be represented.
- `PartNormalization.InlineDataPart` holds `mimeType` and `data` as strings. The source interpolates whatever these fields hold (`undefined` becomes `"undefined"`). A caller of the model must stringify them first.
- `PartNormalization.NormalizeError` records only the index of the null or undefined part, not the text of the TypeError.
- `parts` is a sequence. A non-iterable argument, which would make the `for…of` loop throw, is not modelled.

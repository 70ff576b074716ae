# New-tab organizer core, modelled in Dafny

This project models the logic core of a browser new-tab page that organises
labelled groups of items ("blocks"):

- **`Storage`** (`storage.dfy`): the `StorageService` facade with its five
  operations `set`, `get`, `getMultiple`, `remove` and `clear`. Each call
  first tries the extension's host store. If that store is absent, or its
  callback reports `lastError`, the same operation runs against the
  text-only local store instead. Values are encoded as text on write and
  decoded on read.
  - The state is a `Store` holding both backends' maps.
  - The host's behaviour on one call is an input, `HostOutcome`
    (`Unavailable`, `Fails` or `Ok`).
  - Each operation is a pure function of the store, the outcome and the
    request.
  - The text encoding is an input too: a `Codec` with `encode` and `decode`.
    `decode` answers `None` where the real decoder throws.
  - The local-path round trip is proved for any `Faithful` codec: one whose
    encodings are never empty and always decode back to the value.
  - `Call` dispatches one request and states what it does to the serving
    backend and what it answers. At most one backend changes, reads change
    nothing, and only a read on the local path can reject.
  - `Run` folds `Call` over a sequence of requests, each with its own host
    outcome.
- **`RowHeight`** (`row_height.dfy`): the threshold table and
  `calculateRowHeight`. It maps an item count to the row height `"1"`, `"2"`
  or `"3"`.
- **`Uuid`** (`uuid.dfy`): `generateUniqueId`. It fills the template
  `xxxxxxxx-xxxx-4xxx-yxxx-xxxxxxxxxxxx`, and the random nibbles it draws are
  an input sequence of 31 values in `[0, 16)`. The fixed `4` is the version
  marker of a version-4 UUID, and the `8`–`b` digit is the variant marker
  (section 4.4 of RFC 4122).
- **`Colors`** (`colors.dfy`): the `BLOCK_COLORS` palette and
  `DEFAULT_COLOR`.
- **`Wrappers`** (`wrappers.dfy`): the shared `Option` type.

Facts about the code that the model follows:

- The code validates no key, and neither does the model.
- `JSON.parse` runs inside the catch block with no handler of its own
  (`src/services/storage.service.js:71`). Stored text that does not decode
  therefore rejects `get`, and the model's `Get` returns `Failure`.
- The fallback loop of `getMultiple` has no per-key recovery
  (`src/services/storage.service.js:103-108`). The first key whose text does
  not decode therefore rejects the whole batch, and the model's
  `GetMultiple` does the same.
- A stored empty text counts as absent
  (`src/services/storage.service.js:71`, `:105`). The model follows this
  (`Stored`).

## Model

| member | source | states |
|---|---|---|
| Storage.Route | src/services/storage.service.js:17-34 | The host serves a call exactly when it is present and its callback reports no error; in every other case the local store does. |
| Storage.HostRead | src/services/storage.service.js:55-64 | The host's answer for a key holds a value exactly when the host map has the key, and then it is that key's value. |
| Storage.LocalRead | src/services/storage.service.js:68-72 | The local read is absent exactly when the key is missing or its text is empty. It rejects exactly when the stored text does not decode, recording the key (the code's error names none). Otherwise it returns the decoded text. |
| Storage.LocalReadMany | src/services/storage.service.js:100-110 | The local batch read succeeds exactly when no requested key holds undecodable text. On success, its keys are exactly the requested keys with non-empty stored text, each mapped to its decoded text. On failure, it records the first such key in request order (the code's error names none). |
| Storage.Set | src/services/storage.service.js:14-39 | With the host serving, only the host entry for the key changes and now holds the value; the local store is unchanged. Otherwise only the local entry changes, to the value's encoding, and the host is unchanged. |
| Storage.Get | src/services/storage.service.js:46-73 | The host path never rejects and finds the value exactly when the key is in the host map. The local path is absent exactly when the key is missing or its text is empty, and rejects exactly when the text does not decode. |
| Storage.GetMultiple | src/services/storage.service.js:80-111 | The host answers with exactly the requested keys it holds, with their values. The local path has the key set and rejection condition of the fallback loop. |
| Storage.Remove | src/services/storage.service.js:118-141 | The key is gone from the serving backend. Every other entry of that backend, and the whole other backend, are unchanged. |
| Storage.Clear | src/services/storage.service.js:147-170 | The serving backend holds no key afterwards; the other backend is unchanged. |
| Storage.Call | src/services/storage.service.js:14-170 | Only the serving backend can change. A write stores the value on the host, or its encoding locally, and a removal drops the key there; neither touches any other key. A clear empties the serving backend. A single read answers with the host's entry; on the local path it is absent for a missing key or empty text, rejected exactly when the text does not decode, and otherwise the decoded value. A batch read answers with the requested keys the host holds; on the local path it rejects exactly when some requested text does not decode, and otherwise answers with every requested key holding non-empty text, each mapped to its decoded value. Reads change no state, writes resolve with nothing, and a rejection comes only from a read on the local path. |
| Storage.Run | src/services/storage.service.js:14-170 | A sequence of calls that are all reads leaves both backends as they were. |
| Storage.NeverWrittenReadsAbsent | src/services/storage.service.js:14-170 | A key absent from both backends, and written by no call of a sequence, reads as absent after the sequence, whichever backend serves each call and the final read. Removals and clears never make a value appear. |
| Storage.SetThenGet | src/services/storage.service.js:14-72 | After a write, a read served by the same backend returns the value written. On the local path this holds for any faithful codec. |
| Storage.SetKeepsOtherKeys | src/services/storage.service.js:14-72 | A write to one key does not change the read of any other key, on either backend. |
| Storage.RemoveThenGet | src/services/storage.service.js:118-140 | After a removal, a read on the same backend finds the key absent. |
| Storage.RemoveAbsentKey | src/services/storage.service.js:118-140 | Removing a key the serving backend does not hold leaves the store unchanged. |
| Storage.ClearThenGet | src/services/storage.service.js:147-169 | After a clear, every single read and every batch read on the same backend finds nothing. |
| Storage.NoSyncAcrossBackends | src/services/storage.service.js:14-72 | A value written through the host is not visible to a later call that falls back to a local store lacking the key: the backends are never merged. |
| Storage.GetMultipleAgreesWithGet | src/services/storage.service.js:46-111 | A batch read rejects exactly when some requested key's single read rejects. Otherwise, for every requested key, it holds exactly what the single read returns. |
| Storage.GetMultipleIgnoresOrderAndDuplicates | src/services/storage.service.js:100-110 | Two batch reads of the same set of keys, in any order and with any repetition, both succeed or both fail. When they succeed, they return the same map. |
| RowHeight.CalculateRowHeight | src/constants/row-height.js:17-25 | The height is always "1", "2" or "3": "1" below 10 items, "2" from 10 to 19, and "3" from 20 on. |
| RowHeight.ThresholdsOrdered | src/constants/row-height.js:6-10 | The bands' upper bounds increase strictly: 10, then 20, then unbounded. Their heights increase with them. |
| RowHeight.Monotone | src/constants/row-height.js:17-25 | More items never give fewer rows. |
| RowHeight.RowsCountReachedBands | src/constants/row-height.js:6-25 | The number of rows is one plus the number of bounded bands whose bound the count has reached. |
| Uuid.Variant | src/utils/uuid.js:13 | The variant nibble, the draw's low two bits with bit 3 set, is 8 plus the draw modulo 4, so it lies between 8 and 11. |
| Uuid.HexDigit | src/utils/uuid.js:14 | A value below ten prints as the decimal digit of that value, and a value from ten to fifteen as the letter that many places after `a`, in lower case. |
| Uuid.HexDigitInjective | src/utils/uuid.js:14 | Distinct nibbles print as distinct hex digits. |
| Uuid.TemplateText | src/utils/uuid.js:11 | The template filled is exactly `xxxxxxxx-xxxx-4xxx-yxxx-xxxxxxxxxxxx`. |
| Uuid.Fill | src/utils/uuid.js:11-15 | Filling a template whose placeholders match the draws in number keeps its length. |
| Uuid.FillShape | src/utils/uuid.js:11-15 | Filling keeps every character that is not a placeholder. Every `x` becomes a hex digit, and every `y` becomes one of `8`, `9`, `a`, `b`. |
| Uuid.FillAppend | src/utils/uuid.js:11-15 | Filling a concatenation of templates fills each part with its own share of the draws, in order. |
| Uuid.FillTemplate | src/utils/uuid.js:11-15 | The template has 31 placeholders. Filling it gives the draws' hex digits group by group, with the variant digit in the fourth group. |
| Uuid.GenerateUniqueId | src/utils/uuid.js:10-16 | The identifier has 36 characters with hyphens exactly at positions 8, 13, 18 and 23, and '4' at position 14. Position 19 holds one of '8', '9', 'a', 'b': the variant digit of draw 15. Every other character is the lower-case hex digit of its own draw. |
| Uuid.SameIdIffSameDraws | src/utils/uuid.js:11-15 | Two draw sequences give the same identifier exactly when they agree on every draw but the variant's, and on that draw's low two bits. |
| Colors.OneSelectedColor | src/constants/colors.js:6-27 | Exactly one palette entry is selected: the first. |
| Colors.SelectedIsDefault | src/constants/colors.js:6-29 | The selected entry's name is `DEFAULT_COLOR`, "green". |
| Colors.IdsCountUp | src/constants/colors.js:6-27 | The ids number the entries 1 to 4 in order, so they are distinct and strictly increasing. |
| Colors.NamesDistinct | src/constants/colors.js:6-27 | No two entries share a name. |

## Left out

- The host store's callback plumbing, the `chrome.runtime.lastError` check
  and the promise wrapping are collapsed into the per-call `HostOutcome`.
  Asynchrony, and the lack of any timeout on a hung callback, are not
  modelled.
- A host call whose callback reports an error is assumed to leave the host
  map unchanged. The host API does not say whether a failed call may have
  partly applied.
- The real text encoding (`JSON.stringify` and `JSON.parse`) is abstract: a
  `Codec` input, with the round trip stated as the `Faithful` hypothesis.
  The kinds of parse error are not modelled. Neither is
  `JSON.stringify(undefined)` returning `undefined`, which would be stored
  as the text "undefined" and then fail to decode.
- Errors thrown by the local store itself, such as an exceeded quota or a
  missing `localStorage`, are not modelled. In the model, `set`, `remove`
  and `clear` never reject.
- Storage.Set: a local write always succeeds in the model. In the code it
  rejects in two cases. The store may refuse the write, and store quotas
  are outside the model. Or `JSON.stringify`
  (`src/services/storage.service.js:37`) may throw on a circular value or a
  BigInt; the model's encoder is a total function.
- Storage.Call: every write answers `Done`. It inherits both gaps of
  `Storage.Set`: in the code, a local `set` rejects when the store refuses
  the write or when `JSON.stringify` throws on a circular value or a BigInt.
- Key validation: the code performs none, and neither does the model.
- Storage.SetThenGet: the host store is modelled as a map that returns every
  value exactly as written, so the host half of the round trip needs no
  hypothesis. The real host store keeps a serialized copy of what
  `chrome.storage.local.set` receives (`src/services/storage.service.js:24`,
  read back at `:64`): dates come back as strings, and maps, sets and
  functions come back as empty objects. In the code, the host round trip
  holds only for values that survive that serialization, the same class
  `Faithful` describes on the local path.
- Storage.LocalRead, Storage.LocalReadMany: the rejection's `Malformed(key)`
  is the model's record of which stored text failed. In the code, the
  rejection is the `SyntaxError` thrown by `JSON.parse`
  (`src/services/storage.service.js:71`, `:106`), and it names no key.
- Storage.HostRead: keys that name `Object.prototype` members are not
  modelled. The host path returns `result[key]`
  (`src/services/storage.service.js:64`), so `get("constructor")` on a key
  the host lacks yields the inherited `Object` function; the model answers
  absent.
- Storage.Get: treats every key as an ordinary key. It does not model the
  inherited `Object.prototype` members (`constructor`, `toString`, …) that
  the host path's `result[key]` reads for a key the host lacks.
- Storage.LocalReadMany: treats every key as an ordinary key. In the code,
  the fallback builds its answer in a plain object (`const result = {}`,
  `src/services/storage.service.js:102`). Assigning `result["__proto__"]`
  at `:106` runs the prototype setter instead of adding an own key, so that
  key is missing from the answer, whereas the model's map holds it.
- Storage.GetMultiple: inherits the `__proto__` gap of the local batch read.
  On the local path, the code omits a stored `__proto__` key that the model
  includes.
- Storage.GetMultipleAgreesWithGet: holds for ordinary keys only. In the
  code, a batch and a single read disagree on `__proto__` (the batch drops
  it) and on inherited names such as `constructor` (the host's single read
  finds the inherited member, while the batch answer does not list it as an
  own key).
- RowHeight.CalculateRowHeight: the item count is an integer. A JavaScript
  `NaN` count, for which both comparisons are false and the height is "3",
  is not modelled, and neither are fractional counts.
- `Math.random` is replaced by the input sequence of draws. Uniqueness of
  identifiers across calls is probabilistic and is not stated.
- The palette is constant in the core. Operations that change the selected
  colour belong to the user interface and are not part of this model.
- `scripts/prepare-extension.js` (file copying and console output) and
  `vite.config.js` (build configuration) have no behaviour to model.

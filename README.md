# HeyGen realtime-avatar page: payload handling

This project models the logic in `streamlit_app.py` that sits between the HeyGen
Streaming API and the embedded viewer page:

- **Avatar-list normalisation** (`fetch_interactive_avatars`). It reads the decoded
  `avatar.list` payload and keeps the items whose `status` is exactly `"ACTIVE"`. For each
  such item it builds a `(label, id)` pair; the label is `pose_name`, or `avatar_id` when
  the pose name is missing or empty. It drops pairs whose id or label is falsy. It then
  removes duplicate ids, keeping the first pair seen and the order. The comment above
  the filter speaks of "ACTIVE & public" items, but the code tests only `status`, so the
  model reads no public flag either. The pair-building and
  dedup loops are methods with loop invariants. They are proved equal to the recursive
  specifications `Options` and `Dedup`, and the promised properties are lemmas about those
  specifications.
- **Label lookup**. `dict(avatar_choices)[label]` is modelled as a map built front to back,
  so the last pair with a given label wins.
- **Token extraction** (`create_streaming_token`). It reads `data.token` from the decoded
  response. A missing or empty token is an error whose message carries the response text.
- **Placeholder substitution**. Six chained `str.replace` calls fill `__TOKEN__`,
  `__AVATAR_ID__`, `__VOICE_ID__` and three text lines. `ReplaceAll` follows Python's
  `str.replace`: it scans left to right and replaces non-overlapping occurrences.
  The module `Slots` reads a template as text pieces with placeholder slots between
  them. It proves that the chain puts each slot's value in its place whenever each
  placeholder, at its turn, occurs only at its own slots. That holds when the pieces and
  values are tidy (no `__`, no underscore at either end, so `snake_case` text is fine)
  and each piece between two slots holds a character no placeholder name uses.
- **The page script**. It runs these in order and stops at the first failure: an empty
  avatar list, a label the map lacks, or a missing token.

Python truthiness of an optional JSON string is `Payload.Truthy`: the value is present and
not empty. The Python field `label` is named `title` because `label` is a Dafny keyword.

Modules:
- `Payload`: decoded JSON records.
- `Avatars`: normalisation.
- `Lookup`: label to id.
- `Token`: token extraction.
- `Template`: substitution.
- `Slots`: the template as pieces and slots, and what the chain makes of it.
- `Page`: the top-level script.

## Model

| member | source | states |
|---|---|---|
| Avatars.Items | streamlit_app.py:22 | `payload.get("data") or []`: the item list, empty when `data` is absent or null. Its properties are stated by `Avatars.FetchInteractiveAvatars` and the `Normalised` lemmas. |
| Avatars.ActiveItems | streamlit_app.py:23 | The list comprehension keeping items whose status is exactly `"ACTIVE"`, in order. Its contracts are `Avatars.ActiveItemsMembers` (membership) and `Avatars.ActiveItemsAppend` (order and multiplicity). |
| Avatars.ActiveItemsMembers | streamlit_app.py:23 | The filtered list holds exactly the input items whose status is `"ACTIVE"`, and it is no longer than the input. |
| Avatars.LabelOf | streamlit_app.py:27 | `a.get("pose_name") or a.get("avatar_id")`: the pose name when truthy, else the id. Its use is stated by `Avatars.OptionOf`. |
| Avatars.ActiveItemsAppend | streamlit_app.py:23 | Filtering a concatenation is the concatenation of the filtered parts, so the filter keeps the input order and each kept item's multiplicity. |
| Avatars.OptionOf | streamlit_app.py:27-30 | An item gives at most one pair. It gives one exactly when its `avatar_id` is truthy. That pair has the item's id and a label equal to `pose_name` when truthy, else to the id. |
| Avatars.Options | streamlit_app.py:25-30 | The pairs the loop appends, item after item. Its contracts are `Avatars.OptionsMembers` (membership) and `Avatars.OptionsAppend` (order and multiplicity); `Avatars.BuildOptions` is the loop itself. |
| Avatars.OptionsMembers | streamlit_app.py:25-30 | A pair is in the built list iff some input item with a truthy id describes it; the list is no longer than the input. |
| Avatars.OptionsAppend | streamlit_app.py:25-30 | Building pairs for a concatenation is the concatenation of the parts' pairs, so the pairs follow the item order, one per eligible item. |
| Avatars.BuildOptions | streamlit_app.py:25-30 | The append loop produces exactly `Options(items)`. |
| Avatars.Dedup | streamlit_app.py:32-37 | Duplicate removal by id, keeping the first pair seen. Its contracts are `Avatars.DedupFacts`, `DedupKeepsFirst`, `DedupOnlyFirsts` and `DedupOrder`; `Avatars.DedupById` is the loop itself. |
| Avatars.DedupFacts | streamlit_app.py:32-37 | Dedup is no longer than its input. It keeps only input pairs and loses no id. Its ids are pairwise distinct. |
| Avatars.DedupKeepsFirst | streamlit_app.py:32-37 | The first pair carrying each id is kept. |
| Avatars.DedupOnlyFirsts | streamlit_app.py:34-35 | Every kept pair is the first occurrence of its id. |
| Avatars.DedupOrder | streamlit_app.py:32-37 | Kept pairs appear in the same relative order as their first occurrences in the input. |
| Avatars.DedupById | streamlit_app.py:32-37 | The `seen`-set loop produces exactly `Dedup(options)`. |
| Avatars.Normalised | streamlit_app.py:21-38 | The whole pipeline: filter, build pairs, remove duplicate ids. Its contracts are the five `Normalised` lemmas below. |
| Avatars.NormalisedSound | streamlit_app.py:21-38 | Every output pair comes from an ACTIVE input item with that id, and its label is that item's truthy pose name or else its id. |
| Avatars.NormalisedComplete | streamlit_app.py:21-38 | Every ACTIVE item with a truthy `avatar_id` has its id in the output. |
| Avatars.NormalisedKeepsFirst | streamlit_app.py:31-37 | For the first eligible item of each id, the output holds the pair that item describes, and it is the only pair with that id. |
| Avatars.NormalisedOrder | streamlit_app.py:31-37 | Output order follows the order of first eligible occurrences in the input. |
| Avatars.NormalisedWellFormed | streamlit_app.py:22-38 | The output is no longer than the input. Its ids are distinct. Every pair has a non-empty id and label. |
| Avatars.FetchInteractiveAvatars | streamlit_app.py:21-38 | The method returns the normalised list. An absent or null `data` gives an empty list. The result is no longer than the input, its ids are distinct, and every id and label is non-empty. |
| Lookup.Labels | streamlit_app.py:64 | The dropdown's entries, the labels in pair order. `Lookup.LookupResult` states which of them resolve. |
| Lookup.ToDict | streamlit_app.py:67 | The keys of `dict(avatar_choices)` are exactly the labels of the pairs. |
| Lookup.LookupId | streamlit_app.py:67 | `dict(avatar_choices)[label]`, with `None` for the `KeyError`. Its contracts are `Lookup.LookupResult`, `LookupLastWins` and `LookupDistinctTitles`. |
| Lookup.LookupLastWins | streamlit_app.py:64-67 | Looking up a pair's label returns that pair's id when no later pair has the same label. |
| Lookup.LookupResult | streamlit_app.py:64-67 | The lookup succeeds exactly for the labels the dropdown offers. It returns the id of a pair with that label after which no pair carries it, so the last one wins. |
| Lookup.LookupDistinctTitles | streamlit_app.py:64-67 | With distinct labels, every label maps back to its own pair's id. |
| Token.CreateStreamingToken | streamlit_app.py:48-51 | The call succeeds iff `data` is present and its token is truthy, and it then returns that token (non-empty). Otherwise the error is `"No token in response: "` followed by the body text. |
| Template.ReplaceAll | streamlit_app.py:82 | Python's `str.replace` for a non-empty pattern: leftmost occurrences, no overlaps. Its contracts are `Template.ReplaceAllAbsent` and `Template.ReplaceAllJoin`. |
| Template.ReplaceAllAbsent | streamlit_app.py:81-88 | Replacing a pattern that does not occur leaves the text unchanged. |
| Template.ReplaceAllJoin | streamlit_app.py:81-88 | Take text made of pieces separated by the pattern, where no occurrence starts inside a piece. Replacing yields the same pieces separated by the replacement. |
| Template.Substitute | streamlit_app.py:81-88 | The six `replace` calls in the app's order. Its contracts are the `Template.Substitute…` lemmas and `Slots.SubstituteAligned` and `Slots.SubstituteFillsSlots`. |
| Template.SubstituteNoPlaceholder | streamlit_app.py:81-88 | A template holding none of the six placeholders comes back unchanged. |
| Template.SubstituteTokenSlots | streamlit_app.py:81-88 | Take a template made of underscore-free text around `__TOKEN__` slots, and an underscore-free token. The result is the template with the token in every slot. |
| Template.ValueCanFormPlaceholder | streamlit_app.py:81-88 | Placeholder-free values can still leave a placeholder in the result: template `__TOKEN__TOKEN__` with token `__` yields `__TOKEN__`. |
| Slots.ReplaceStep | streamlit_app.py:82-87 | One `replace` call of the chain fills exactly its own slots when its placeholder occurs only there. |
| Slots.SubstituteAligned | streamlit_app.py:81-88 | For any template of pieces and slots (each of the six placeholders, in any order and number): if each placeholder, at its turn, occurs only at its own slots, the result is the pieces with each slot's value in between. |
| Slots.TidyAligned | streamlit_app.py:81-88 | Tidy pieces and inserted values, with a non-name character in every piece between two slots, leave each placeholder only at its own slots at every stage. |
| Slots.SubstituteFillsSlots | streamlit_app.py:81-88 | For tidy pieces (`snake_case` allowed), tidy token, avatar id and voice id, and a non-name character in each piece between two slots, the result is the pieces with each slot's value in between, and it holds no placeholder. |
| Slots.LaterReplaceRewritesValue | streamlit_app.py:82-84 | For any tidy `u`, `w` and voice id, and any avatar id, the template `__TOKEN__` with token `u + "__VOICE_ID__" + w` gives `u + voiceId + w`: a later `replace` rewrites inside the inserted token. |
| Page.RenderPage | streamlit_app.py:58-88 | The page stops with "no avatars" iff the normalised list is empty. It raises `KeyError` with the selected label iff the list is non-empty and lacks that label, which never happens for an offered label. Token failure gives a `RuntimeError` carrying the token error. It succeeds iff the list, the lookup and the token all succeed, and its page is then the substituted template. |

## Left out

- HTTP requests, status checks, timeouts and JSON decoding are not modelled. The model starts from the decoded payloads, and a JSON string field that is absent or `null` is `None`.
- JSON values of other types are not modelled: a non-string `status`, `pose_name` or `avatar_id`, or a `data` value in the avatar-list payload that is an object or anything else but a list. Items that are not objects are not modelled either.
- Streamlit page setup, the spinner, the messages and the iframe embedding are not modelled. The `st.stop()` after an empty avatar list is modelled as the early return `Err(NoAvatars)` of `Page.RenderPage`. The dropdown's selection and the typed voice id are parameters of `Page.RenderPage`.
- Reading the API key from the secrets file and reading `client.html` from disk are not modelled. The template's contents are a parameter.
- The vendor JavaScript SDK and the WebRTC session in the viewer page are outside this program and are not modelled.
- Template.ReplaceAll: requires a non-empty pattern. Python's `str.replace` with an empty pattern inserts the replacement between characters, but the six patterns here are all non-empty constants.
- Template.SubstituteNoPlaceholder: does not state that no placeholder remains whenever the values hold none, because that is false for chained replacement. `Template.ValueCanFormPlaceholder` exhibits an input where it fails. The result is characterised instead by `Slots.SubstituteFillsSlots`, which assumes tidy values (no `__`, no underscore at either end) rather than placeholder-free ones.
- Slots.SubstituteFillsSlots: asks for a non-name character in each piece between two slots. Without it a piece can complete a stray placeholder with its neighbours: in `__VOICE_ID__TOKEN__LINE1__` the first `replace` finds `__TOKEN__` across the slot boundaries. `Slots.SubstituteAligned` covers every template where no such stray occurrence arises.

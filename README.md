# walleke wallet logic in Dafny

This project models the wallet logic of the walleke demo wallet
(`js/wallet-app.js`, a single browser file) and proves properties of it.
The file mixes DOM and Firebase plumbing with several self-contained pieces
of logic, and the model covers those pieces:

- **Inbox** (`inbox.dfy`, module `Inbox`): the inbox of known sessions.
  It is an ordered list of entries keyed by session id, most recently touched
  first.
  - An insertion caps the list at twelve entries.
  - An update merges the patch field by field.
  - Pruning drops entries by the time of their last activity.
  - The list is the class `InboxList` with a `seq<Entry>` field.
- **Inbox status** (`status.dfy`, module `InboxStatus`): the priority-ordered
  rules that turn a remote session record into one of seven status codes.
- **Attribute planner** (`planner.dfy`, module `Planner`):
  - the table of requested attributes built from the scenario configuration
    (the class `AttributeTable`);
  - the four-level precedence that picks the attributes a request asks for;
  - the plan of a card: its field order, required and optional fields;
  - the selection rules that keep a card's selected fields inside its
    payload while covering the required ones.
- **Session metadata resolver** (`resolver.dfy`, module `MetaResolver`): the
  bounded retry loop over two remote reads, with a cache of metadata seen
  before (the class `MetaCache`).
- **Share flow** (`shareflow.dfy`, module `ShareFlow`):
  - choosing the candidate cards of a share request;
  - the pending share, the class `PendingShare`, with its per-card
    selections;
  - the one-shot "not found" report;
  - the confirm handler with its guards;
  - the expiry notification.
  - Remote writes and the expiry notification are recorded in an event log.
    The invariants say what that log may hold.
- **PIN dialog** (`pin.dfy`, module `PinEntry`): the digit buffer of the
  confirm dialog as a state machine (the class `PinPad`).
- **String helpers** (`text.dfy`, module `Text`): trimming and ASCII case
  mapping, the canonical credential type, the session id taken from query
  parameters, PIN normalisation, Dutch list phrasing and source labels.
- `wrappers.dfy` holds the `Option` type.

The environment enters these modules as parameters:

- The clock is the `now` argument.
- The remote reads `getRequest` and `getOffer` are functions from a session
  id and an attempt number to an optional answer.
- The answer of the remote `getType` read is the `rootType` argument.
- The presence of the PIN overlay in the page is the `hasOverlay` argument.
- The two-second PIN check, the expiry notification and the PIN dialog's
  answer arrive as method calls (`TimerFired`, `OnExpired`, `OnPinResult`).

The metadata cache of `ensureSessionMeta` (js/wallet-app.js:143) is consulted
only after both remote reads came back empty. A cached entry therefore never
stops a remote read; it only makes the first attempt succeed, and
`MetaResolver.CachedAnswersAtOnce` states this. Its callers `launchShareFlow`
(js/wallet-app.js:159) and `addCardFromOfferSession` (js/wallet-app.js:187)
check the cache themselves, so for them a cached entry is returned without a
remote read. `ShareFlow.LaunchMeta` models the check for the share flow;
`addCardFromOfferSession` is not part of this model.

## Model

| member | source | states |
|---|---|---|
| Text.Upper | js/wallet-app.js:1809 | `toUpperCase` keeps the length, leaves no lower-case letter, keeps every character the same letter up to case and leaves every character that is not a lower-case letter as it was (ASCII letters only) |
| Text.Lower | js/wallet-app.js:294 | `toLowerCase` keeps the length, leaves no upper-case letter, keeps every character the same letter up to case and leaves every character that is not an upper-case letter as it was (ASCII letters only) |
| Text.UpperIdempotent | js/wallet-app.js:1809 | upper-casing twice is upper-casing once |
| Text.TrimStartSpec | js/wallet-app.js:1809 | the left trim is a suffix of the input, everything cut is whitespace, and the result does not start with whitespace |
| Text.TrimEndSpec | js/wallet-app.js:1809 | the right trim is a prefix of the input, everything cut is whitespace, and the result does not end with whitespace |
| Text.Trim | js/wallet-app.js:1809 | `trim` leaves no whitespace at either end, is empty exactly for all-whitespace input, and leaves whitespace-free input unchanged |
| Text.TrimIdempotent | js/wallet-app.js:1809 | trimming twice is trimming once |
| Text.TrimStartUpper | js/wallet-app.js:1361 | upper-casing and trimming the start commute |
| Text.TrimEndUpper | js/wallet-app.js:1361 | upper-casing and trimming the end commute |
| Text.TrimUpper | js/wallet-app.js:1361 | `toUpperCase().trim()` gives the same string as `trim().toUpperCase()` |
| Text.DropSeparatorsSpec | js/wallet-app.js:1811 | skipping a run of separators leaves a suffix that does not start with a separator |
| Text.DropSeparatorsRun | js/wallet-app.js:1811 | skipping the separators in front of a string that does not start with one cuts exactly that run |
| Text.CollapseSeparators | js/wallet-app.js:1811 | `replace(/[\s-]+/g, '_')` leaves no whitespace or hyphen, is empty exactly for empty input, every character is `_` or comes from the input, and input without separators is unchanged |
| Text.CollapseKeeps | js/wallet-app.js:1811 | a character that is not whitespace or a hyphen is kept in front of the collapsed rest |
| Text.CollapseRun | js/wallet-app.js:1811 | a maximal run of whitespace and hyphens, however long, becomes one `_` in front of the collapsed rest |
| Text.CanonicalTypeShape | js/wallet-app.js:1808-1813 | a canonical type is upper case, has no whitespace or hyphen, and has no whitespace at either end |
| Text.CanonicalTypeFixpoint | js/wallet-app.js:1808-1813 | `canonicalType` leaves a string unchanged exactly when the string is already canonical |
| Text.CanonicalTypeIdempotent | js/wallet-app.js:1808-1813 | `canonicalType(canonicalType(t)) == canonicalType(t)` |
| Text.CanonicalType | js/wallet-app.js:1808-1813 | no own contract; Text.CanonicalTypeShape, Text.CanonicalTypeFixpoint and Text.CanonicalTypeIdempotent state what it yields |
| Text.FirstSessionParam | js/wallet-app.js:629-635 | the search over the keys yields "" exactly when no key has a non-empty trimmed value |
| Text.FirstSessionParamIsFirst | js/wallet-app.js:629-635 | a non-empty answer is the trimmed value of the first key in priority order that has one |
| Text.ExtractSessionIdFromParams | js/wallet-app.js:627-637 | no parameters give ""; otherwise the answer is the trimmed value of the first of `session`, `code`, `qr`, `id` that is non-blank, or "" when none is |
| Text.Digits | js/wallet-app.js:824 | `replace(/\D/g, '')` keeps only digits, is empty exactly when the input holds no digit, and keeps a single character exactly when it is a digit |
| Text.DigitsConcat | js/wallet-app.js:824 | the digits of a concatenation are the digits of each part, in order, so every digit is kept in its place |
| Text.DigitsOfDigits | js/wallet-app.js:824 | a string of digits is left unchanged |
| Text.NormalizePinValue | js/wallet-app.js:822-826 | the normalised PIN is the digits of the configured value when it has any, and `123456` when the value is missing or holds no digit |
| Text.NormalizePinIgnoresNonDigit | js/wallet-app.js:822-826 | removing a non-digit character anywhere from the configured value does not change the normalised PIN |
| Text.NormalizePinFixpoint | js/wallet-app.js:822-826 | a non-empty string of digits is its own normalisation |
| Text.NormalizePinIdempotent | js/wallet-app.js:822-826 | normalising a normalised PIN changes nothing |
| Text.CleanItems | js/wallet-app.js:910 | the cleaned list is no longer than the input and holds no empty item; one item becomes its trimmed form, or nothing when that is blank |
| Text.CleanItemsConcat | js/wallet-app.js:910 | cleaning works item by item: the cleaned concatenation is the concatenation of the cleaned parts |
| Text.HumanList | js/wallet-app.js:909-915 | of the trimmed non-blank items: none gives "", one gives that item, two or more give the items but the last joined by ", ", then " en " and the last |
| Text.EnumerateShape | js/wallet-app.js:913-914 | two or more items are joined by ", " with " en " before the last one |
| Text.HumanListSnoc | js/wallet-app.js:909-915 | appending a non-blank item to a list with items gives the earlier items joined by ", ", then " en " and the trimmed new item |
| Text.SourceLabel | js/wallet-app.js:293-300 | "" gives ""; `push`, `deeplink` and `manual` (in any case) give `via push`, `via link` and `handmatig`; any other source gives `via ` and the lower-cased source |
| Text.SourceLabelIgnoresCase | js/wallet-app.js:293-300 | the label does not depend on the letter case of the source |
| Text.NatToString | js/wallet-app.js:938 | the decimal form of the order length in a fallback selection key is a non-empty string of digits without a leading zero (besides "0") whose decimal value is that length |
| InboxStatus.FollowsRuleList | js/wallet-app.js:250-276 | the derived code is the code of the first rule, in source order, whose guard holds |
| InboxStatus.DeriveInboxStatus | js/wallet-app.js:250-276 | no own contract; InboxStatus.FollowsRuleList ties it to the rule list and the lemmas below state its priorities |
| InboxStatus.ExpiredWins | js/wallet-app.js:250-276 | a truthy expiry time (the record's own, else the stored one) at or before now yields `expired`, whatever the other fields are |
| InboxStatus.PriorityOrder | js/wallet-app.js:250-276 | each code band holds exactly when its rule holds and every earlier rule fails: expired, then not_found, then shared/added, then scanned, then pending |
| InboxStatus.ExpiredStaysExpired | js/wallet-app.js:250-276 | an expired status stays expired at every later time |
| InboxStatus.IntentOnlyPicksFlavour | js/wallet-app.js:250-276 | the intent never changes which rule fires; it only picks shared vs added and pending-share vs pending-offer |
| InboxStatus.FinalIffSettled | js/wallet-app.js:250-276 | the status is final (added, shared, not_found, expired) exactly when the session expired, reported not found or completed |
| Inbox.IndexOf | js/wallet-app.js:327 | `findIndex`: the index of the first entry with the id, or none when no entry has it |
| Inbox.Without | js/wallet-app.js:352-356 | the filtered list holds exactly the entries with another id |
| Inbox.WithoutConcat | js/wallet-app.js:352-356 | filtering distributes over concatenation |
| Inbox.WithoutAbsent | js/wallet-app.js:352-356 | filtering out an id that no entry has changes nothing |
| Inbox.WithoutKeepsBounds | js/wallet-app.js:350-360 | removal keeps the ids unique and the list at most twelve long |
| Inbox.NewEntry | js/wallet-app.js:306-321 | no own contract; Inbox.UpsertedHead and Inbox.UpsertedNewEvictsTail state where the new entry goes |
| Inbox.Merge | js/wallet-app.js:327-339 | no own contract; Inbox.MergeOnlyGivenFields and Inbox.MergeIdempotent state what it changes |
| Inbox.Upserted | js/wallet-app.js:301-344 | no own contract; Inbox.UpsertedHead, Inbox.UpsertedKeepsBounds, Inbox.UpsertedKeepsOthers and Inbox.UpsertedNewEvictsTail state its result |
| Inbox.UpsertedHead | js/wallet-app.js:301-344 | after an upsert the touched entry is at index 0: the merged old entry, or a new one |
| Inbox.UpsertedKeepsBounds | js/wallet-app.js:301-344 | with unique ids and at most twelve entries before, both still hold after the upsert |
| Inbox.UpsertedKeepsOthers | js/wallet-app.js:326-344 | updating an existing id keeps the length and the other entries in their relative order |
| Inbox.WithoutHead | js/wallet-app.js:340-343 | moving the touched entry to the head leaves the other entries as they were |
| Inbox.WithoutAroundKey | js/wallet-app.js:340-343 | with unique ids, removing the entry at position k leaves the entries before and after it, and the id occurs nowhere else |
| Inbox.UpsertedNewEvictsTail | js/wallet-app.js:306-325 | inserting a new id into a full list puts the new entry first and evicts exactly the last one |
| Inbox.MergeOnlyGivenFields | js/wallet-app.js:327-339 | a merge changes only the fields the patch gives (statusInfo only when truthy, unread only when a boolean), keeps id and addedAt, and sets updatedAt to now |
| Inbox.MergeIdempotent | js/wallet-app.js:327-339 | merging the same patch twice is merging it once at the later time |
| Inbox.MarkedRead | js/wallet-app.js:361-369 | no own contract; Inbox.MarkedReadKeepsIds and Inbox.MarkedReadIdempotent state its result |
| Inbox.MarkedReadKeepsIds | js/wallet-app.js:361-369 | marking read keeps the ids in order and the bounds, and the entry with the id is then read |
| Inbox.MarkedReadIdempotent | js/wallet-app.js:361-369 | marking an entry read a second time changes nothing |
| Inbox.Retained | js/wallet-app.js:280-283 | pruning keeps exactly the entries whose last activity is falsy or at or after the cutoff |
| Inbox.RetainedConcat | js/wallet-app.js:280-283 | pruning distributes over concatenation, so the survivors keep their original order |
| Inbox.RetainedAllRecent | js/wallet-app.js:280-283 | a list of recent entries is left unchanged |
| Inbox.RetainedIdempotent | js/wallet-app.js:280-283 | pruning twice with one cutoff is pruning once |
| Inbox.RetainedKeepsBounds | js/wallet-app.js:280-283 | pruning keeps the ids unique and the list at most twelve long |
| Inbox.PruneBoundary | js/wallet-app.js:278-282 | an entry last active exactly at `now - max(0, ttl)` is kept, and one a millisecond earlier is dropped |
| Inbox.InboxList.constructor | js/wallet-app.js:277-369 | the inbox starts as the loaded list |
| Inbox.InboxList.Find | js/wallet-app.js:288-292 | a found entry has the trimmed id, is in the list and no earlier entry has that id; nothing is found for a blank id or an id no entry has |
| Inbox.InboxList.Upsert | js/wallet-app.js:301-349 | a blank id changes nothing and returns null; otherwise the list becomes the upserted list and the returned entry is its head; the bounds are kept |
| Inbox.InboxList.Remove | js/wallet-app.js:350-360 | a blank id changes nothing; otherwise every entry with the id is dropped; the bounds are kept |
| Inbox.InboxList.MarkRead | js/wallet-app.js:361-369 | a blank id or an unknown id changes nothing; an unread entry with the id becomes read with `updatedAt` now, and nothing moves; the bounds are kept |
| Inbox.InboxList.Prune | js/wallet-app.js:277-287 | the list becomes the retained entries for the cutoff `now - max(0, ttl)`, with 24 hours as the default ttl; the bounds are kept |
| Planner.Lookup | js/wallet-app.js:1532-1533 | a key has a value exactly when it is a payload key, and the value is the payload's |
| Planner.RegisterScenarioKey | js/wallet-app.js:842-849 | registering a configuration with attributes overwrites the `scenario:<ID>` key of its upper-cased id |
| Planner.RegisterTypeKey | js/wallet-app.js:850-857 | registering sets `type:<T>` from the configuration's canonical request type only when that key is still unset |
| Planner.Register | js/wallet-app.js:842-857 | no own contract; Planner.RegisterScenarioKey and Planner.RegisterTypeKey state which keys it sets |
| Planner.Registered | js/wallet-app.js:838-859 | no own contract; Planner.ScenarioKeyLastWins and Planner.TypeKeyFirstWins state what the built table holds |
| Planner.ScenarioKeyLastWins | js/wallet-app.js:842-849 | the `scenario:<ID>` entry holds the attributes of the last configuration with that id |
| Planner.FirstTypeAttrsSnoc | js/wallet-app.js:850-857 | a later configuration adds a type entry only where no earlier one did |
| Planner.TypeKeyFirstWins | js/wallet-app.js:850-857 | the `type:<T>` entry holds the attributes of the first configuration registered with that type |
| Planner.AttributeTable.constructor | js/wallet-app.js:838-840 | the table starts empty |
| Planner.AttributeTable.SetScenarioAttributes | js/wallet-app.js:838-859 | after the call the table holds exactly the registration of every configuration, in order |
| Planner.ConfigAttrsCovered | js/wallet-app.js:866-871 | the direct `scenarioConfigs[ID]` lookup never finds attributes that the `scenario:<ID>` key lacks |
| Planner.ResolveFollowsPrecedence | js/wallet-app.js:861-879 | on a table built from the configurations, resolution follows the precedence: the meta's own attributes, then its scope's, then the scenario's, then the card type's, then none |
| Planner.ResolveAttributes | js/wallet-app.js:861-879 | no own contract; Planner.ResolveFollowsPrecedence states the precedence it follows |
| Planner.Spaced | js/wallet-app.js:819 | the schema's fallback key has the type's length and no `_`, and differs from the type only where the type has `_`, which becomes a space |
| Planner.SchemaFor | js/wallet-app.js:816-820 | a schema is found exactly when the canonical type or its spaced form is a key; it is the canonical key's schema when that is a key, else the spaced key's |
| Planner.AddAbsentSpec | js/wallet-app.js:922 | appending the payload keys not yet in the order keeps the order as a prefix, adds every payload key and no duplicates, and, for distinct payload keys, appends exactly the unlisted keys in payload order |
| Planner.AddAbsentShape | js/wallet-app.js:922 | the order stays a prefix, the result holds exactly the order's keys and the payload keys, and every appended key is new and appended once |
| Planner.AddAbsentOrder | js/wallet-app.js:922 | for distinct payload keys the result is the order followed by the payload keys not in it, in payload order |
| Planner.AddAbsentSkip | js/wallet-app.js:922 | a payload key that is excepted or already in the order is skipped |
| Planner.AddAbsentTake | js/wallet-app.js:922 | a new payload key that does not come again is appended before the keys after it |
| Planner.AddTrimmedSpec | js/wallet-app.js:924-926 | the set of trimmed non-empty names holds exactly those names, without duplicates |
| Planner.NormalizedKeysSpec | js/wallet-app.js:925-926 | a declared list becomes the set of its trimmed non-empty names; a missing one gives the empty set |
| Planner.PlanOrder | js/wallet-app.js:917-922 | the plan's order starts with the schema order and holds every payload key; the keys after the schema order are exactly the payload keys not in it, in payload order |
| Planner.PlanRequiredDefaults | js/wallet-app.js:923-932 | with nothing declared every payload key is required; with only optional declared every payload key outside it is required; otherwise required is the declared set |
| Planner.PlanWithoutDeclarationRequiresAll | js/wallet-app.js:923-931 | when no attributes resolve for a request, every payload key is required |
| Planner.BuildAttributePlan | js/wallet-app.js:917-933 | no own contract; Planner.PlanOrder, Planner.PlanRequiredDefaults and Planner.PlanWithoutDeclarationRequiresAll state the plan it builds |
| Planner.SetAdd | js/wallet-app.js:946 | `Set.add`: a new member is appended at the end of the insertion order; an existing member leaves the set unchanged |
| Planner.SetDelete | js/wallet-app.js:958 | `Set.delete`: the member is removed and nothing else |
| Planner.AddFieldsSpec | js/wallet-app.js:943-955 | adding the wanted order fields keeps the selection as a prefix, adds exactly the wanted fields present in the payload, and, for an order without repeats, appends them in order |
| Planner.AddFieldsShape | js/wallet-app.js:943-955 | the selection stays a prefix, the result holds exactly the selection and the wanted order fields, and a duplicate-free selection stays duplicate-free |
| Planner.WantedFieldsSpec | js/wallet-app.js:943-950 | the wanted fields are exactly the order fields in the payload that are required (or all fields when everything is auto-selected) |
| Planner.AddFieldsOrder | js/wallet-app.js:943-955 | for an order without repeats the result is the selection followed by the wanted fields not yet selected, in order |
| Planner.DropAbsentSpec | js/wallet-app.js:956-960 | the cleaned selection holds exactly the selected fields present in the payload |
| Planner.SetDeleteAbsent | js/wallet-app.js:958 | deleting a non-member changes nothing |
| Planner.SetDeleteSplit | js/wallet-app.js:958 | deleting a member from a set removes just its one occurrence |
| Planner.DropAbsentSnoc | js/wallet-app.js:956-960 | cleaning works field by field in selection order |
| Planner.SelectionBounds | js/wallet-app.js:935-962 | the selection holds the payload fields that were stored or auto-selected, plus the required order fields in the payload; it contains every required field in the payload and no key outside it |
| Planner.SelectionAfter | js/wallet-app.js:939-962 | no own contract; Planner.SelectionBounds, Planner.SelectionIdempotent and Planner.PlannedSelectionCoversRequired state the selection it yields |
| Planner.DropAbsentNoop | js/wallet-app.js:956-960 | a selection that is inside the payload is left unchanged |
| Planner.AddFieldsNoop | js/wallet-app.js:951-955 | adding required fields that are already selected changes nothing |
| Planner.SelectionIdempotent | js/wallet-app.js:939-962 | a repeated call for the same share, card and plan returns the stored set with its contents unchanged |
| Planner.PlannedSelectionCoversRequired | js/wallet-app.js:917-962 | for the plan of a card, required ∩ payload ⊆ selection ⊆ payload |
| MetaResolver.FetchOnce | js/wallet-app.js:123-144 | one fetch gives the preferred read's answer, else the other read's when it has one, else the cached value; it is empty only when all three are |
| MetaResolver.SearchFrom | js/wallet-app.js:145-151 | no own contract; MetaResolver.SearchFromIsFirstHit states that it yields the first hit in range |
| MetaResolver.SearchFromIsFirstHit | js/wallet-app.js:145-151 | the retry search returns the first attempt in range that found something, and nothing only when every attempt found nothing |
| MetaResolver.Resolved | js/wallet-app.js:119-154 | no own contract; MetaResolver.CachedAnswersAtOnce and MetaResolver.MetaCache.EnsureSessionMeta state what it returns |
| MetaResolver.CachedAnswersAtOnce | js/wallet-app.js:143-147 | with a cached entry the first attempt succeeds: the preferred read's answer if it has one, else the other read's, and the cached one only when both reads are empty |
| MetaResolver.MetaCache.constructor | js/wallet-app.js:119-154 | the cache starts empty |
| MetaResolver.MetaCache.Put | js/wallet-app.js:163 | `pendingMeta.set`: the session's entry becomes the given metadata |
| MetaResolver.MetaCache.EnsureSessionMeta | js/wallet-app.js:119-154 | a blank id gives null; otherwise the loop returns what the retry search finds within `retries` extra attempts, and caches it when found |
| ShareFlow.MatchingCards | js/wallet-app.js:174 | the matching cards are exactly the wallet's cards whose canonical type equals the requested type; a single card is kept exactly when it matches |
| ShareFlow.MatchingCardsConcat | js/wallet-app.js:174 | `filter` works card by card, so the matches keep the wallet's order |
| ShareFlow.RequestCardType | js/wallet-app.js:166-173 | the requested type is canonical: the meta's canonical type when it is not empty, else the canonical remote root type |
| ShareFlow.CandidatesExact | js/wallet-app.js:174-177 | the candidates are exactly the cards of the requested type, except that an empty type, no match and a single card make that card the only candidate |
| ShareFlow.NoForeignCandidate | js/wallet-app.js:174-177 | with a requested type, no candidate has another type |
| ShareFlow.Candidates | js/wallet-app.js:174-177 | no own contract; ShareFlow.CandidatesExact and ShareFlow.NoForeignCandidate state which cards it keeps |
| ShareFlow.FilterPayload | js/wallet-app.js:1530-1535 | the shared payload holds exactly the selected keys that are in the card's payload, with the card's values |
| ShareFlow.KeysCons | js/wallet-app.js:1531-1534 | the keys of a payload with one more field in front start with that field's key |
| ShareFlow.FilterPayloadKeys | js/wallet-app.js:1530-1535 | when every selected key is in the payload, the shared payload's keys are the selection in order |
| ShareFlow.ReportedType | js/wallet-app.js:1361-1362 | the reported type is the meta's trimmed upper-cased type when that is not empty, else the trimmed upper-cased remote root type |
| ShareFlow.ReportedTypeIsRequestType | js/wallet-app.js:1361-1362 | collapsing the separators of the reported type gives the requested type, so the report names the type the flow searched for |
| ShareFlow.NotFoundCountAppend | js/wallet-app.js:1356-1357 | counting not-found reports adds up over concatenated logs |
| ShareFlow.LogAppend | js/wallet-app.js:1356-1365 | appending writes adds their not-found reports and keeps "only candidates are shared" and "nothing shared after expiry" |
| ShareFlow.NotFoundWritesFacts | js/wallet-app.js:1363-1365 | the not-found writes hold one not-found report and no card |
| ShareFlow.ShareWritesFacts | js/wallet-app.js:1536-1545 | the share writes start with the shared card, hold no not-found report, and share only a part of a candidate |
| ShareFlow.ExpiryFacts | js/wallet-app.js:1560-1562 | the expiry notice is neither a report nor a share |
| ShareFlow.MissingFromSpec | js/wallet-app.js:1387-1401 | the missing fields are exactly the required fields absent from the available order fields, and there are none exactly when every required field is available |
| ShareFlow.MissingIsAbsentRequired | js/wallet-app.js:1387-1401 | for the plan of a card, the missing fields are exactly its required fields outside the payload; with no declared attributes nothing is missing |
| ShareFlow.Toggle | js/wallet-app.js:1473-1474 | a click flips the membership of the key and leaves every other field as it was |
| ShareFlow.ToggleTwice | js/wallet-app.js:1473-1474 | two clicks give back the same set |
| ShareFlow.AllDistinctUpdate | js/wallet-app.js:949 | storing a duplicate-free set keeps every stored selection duplicate-free |
| ShareFlow.SelectionKey | js/wallet-app.js:938 | no own contract; ShareFlow.PendingShare.EnsureSelection states that the selection is stored under it |
| ShareFlow.PendingShare.constructor | js/wallet-app.js:178 | a new pending share has no selections, no flags set and an empty log |
| ShareFlow.PendingShare.EnsureSelection | js/wallet-app.js:935-962 | the returned selection is the selection rule applied to the stored set (or the initial one), and it is stored under the card's selection key |
| ShareFlow.PendingShare.ShowNotice | js/wallet-app.js:1401-1416 | the button is enabled exactly when nothing required is missing and the share has not expired; the expiry message wins over the missing-fields message |
| ShareFlow.PendingShare.RenderSelected | js/wallet-app.js:1380-1416 | the view shows the selected candidate with its selection, button state and message, and the flow invariant holds |
| ShareFlow.PendingShare.Render | js/wallet-app.js:1337-1379 | without candidates the button is hidden and the not-found report is logged unless it was sent before; otherwise the selected candidate is shown and nothing is logged |
| ShareFlow.PendingShare.ReportNotFound | js/wallet-app.js:1356-1365 | the report is logged only on the first call; the `_reported` flag is then set |
| ShareFlow.PendingShare.ToggleField | js/wallet-app.js:1471-1476 | a click on a non-required available field of a live share flips it in the stored selection and re-renders; anything else changes nothing |
| ShareFlow.PendingShare.SelectCard | js/wallet-app.js:1494 | choosing an existing candidate selects it and shows it; anything else changes nothing |
| ShareFlow.PendingShare.BeginConfirm | js/wallet-app.js:1509-1516 | a click on the enabled button of an expired share only disables it and shows the expiry message; on a live share it disables the button and waits for the PIN |
| ShareFlow.PendingShare.OnPinResult | js/wallet-app.js:1517-1546 | corrected handler: a refused PIN re-enables the button; an accepted PIN on a live share stores the selection and logs the writes unless it is empty; an expired share logs nothing; nothing is ever shared after expiry |
| ShareFlow.PendingShare.OnPinResultAsWritten | js/wallet-app.js:1517-1546 | the handler as written: an accepted PIN stores the selection and logs the writes unless it is empty, whether or not the share expired meanwhile |
| ShareFlow.PendingShare.ShareCard | js/wallet-app.js:1520-1546 | an empty selection logs nothing and asks for one field; otherwise the filtered card is shared, the response set and the session marked completed |
| ShareFlow.PendingShare.OnExpired | js/wallet-app.js:1560-1567 | the first expiry notice marks the share expired, disables the button, shows the message and re-renders; later notices change nothing |
| ShareFlow.PendingShare.ExpireAndRender | js/wallet-app.js:1561-1566 | expiring a shown share logs the notice, disables the button, shows the message and re-renders the stored selection |
| ShareFlow.PendingShare.MarkExpired | js/wallet-app.js:1561-1565 | the share becomes expired, the button disabled and the expiry message shown, and the notice is logged |
| ShareFlow.LaunchShareFlow | js/wallet-app.js:155-180 | there is no share exactly when no metadata is found; found metadata is cached; the share holds the candidates of the requested type and shows either the not-found report or the first candidate |
| ShareFlow.LaunchMeta | js/wallet-app.js:156-163 | no own contract; ShareFlow.LaunchShareFlow states when metadata is found and that it is cached |
| ShareFlow.OpenShare | js/wallet-app.js:174-180 | the new share holds the candidates of the requested type and the plan of every card; with no candidate it reports not-found and disables the button, otherwise it shows the first candidate with nothing logged |
| ShareFlow.ShownPid | js/wallet-app.js:1337-1416 | a share of one PID card with one field opens with the button enabled, nothing logged and that field selected |
| ShareFlow.AwaitingPin | js/wallet-app.js:1508-1517 | that share reaches the PIN wait with nothing logged |
| ShareFlow.PidFacts | js/wallet-app.js:917-962 | for that card the plan orders and requires its one field, nothing is missing, the selection is that field and sharing it logs a card share |
| ShareFlow.ExpiredWhileAwaitingPin | js/wallet-app.js:1560-1567 | the expiry notice can arrive during the PIN wait |
| ShareFlow.ExpiryDuringPinStillShares | js/wallet-app.js:1509-1546 | as written, a share that expired during the PIN wait still shares the card |
| ShareFlow.ExpiryDuringPinIsRefused | js/wallet-app.js:1509-1546 | with the corrected handler the same run shares nothing and shows the expiry message |
| ShareFlow.OneFieldPlan | js/wallet-app.js:917-933 | any payload of a single field, for a request without declared attributes or scenario, gives a plan that orders and requires that field |
| ShareFlow.OneFieldSelection | js/wallet-app.js:935-962 | for any single-field payload and the plan requiring that field, nothing is missing and the selection is the one field, on the first and on a later call |
| ShareFlow.AddEach | js/wallet-app.js:943-955 | the `forEach` over the order adds what the selection rule adds, without duplicates |
| ShareFlow.DeleteAbsent | js/wallet-app.js:956-960 | the `forEach` over a copy of the selection deletes what the cleaning rule drops, without duplicates |
| ShareFlow.DeleteAbsentKeep | js/wallet-app.js:956-960 | a field that is still in the payload is kept and the cleaning moves past it |
| ShareFlow.DeleteAbsentDrop | js/wallet-app.js:956-960 | deleting a field that is no longer in the payload moves the cleaning forward by one field |
| ShareFlow.DistinctSplit | js/wallet-app.js:949-960 | in a duplicate-free selection a field does not occur again after its position |
| PinEntry.ExpectedPinIsNormalized | js/wallet-app.js:1180 | the expected PIN is the normalised configured value; the `'123456'` fallback adds nothing |
| PinEntry.DropLast | js/wallet-app.js:1256 | `slice(0, -1)` drops the last digit, and gives "" for "" |
| PinEntry.PinPad.constructor | js/wallet-app.js:1177-1180 | the dialog opens empty with the normalised PIN; without its overlay it answers true at once |
| PinEntry.PinPad.TrySubmit | js/wallet-app.js:1220-1237 | an incomplete entry does nothing; a complete wrong one is cleared with the error shown; the right one starts the check |
| PinEntry.PinPad.PressDigit | js/wallet-app.js:1239-1251 | a pad digit clears the error, is appended while the entry is shorter than the PIN, and a complete entry is submitted; nothing happens while checking or after the answer |
| PinEntry.PinPad.KeyDown | js/wallet-app.js:1266-1280 | a digit key types like the pad but leaves the error; Backspace drops the last digit; other keys do nothing |
| PinEntry.PinPad.Back | js/wallet-app.js:1252-1258 | the back button clears the error and drops the last digit |
| PinEntry.PinPad.Cancel | js/wallet-app.js:1259-1265 | cancelling an open dialog answers false |
| PinEntry.PinPad.TimerFired | js/wallet-app.js:1231-1236 | the end of the check answers true, and only after the right PIN was typed |

## Left out

- DOM construction and all markup: the inbox, cards and share views, the drawer, toasts and the PIN overlay's look (dots, blur, disabled keys). This is UI.
- The QrFlow/Firebase client: remote reads are function parameters and remote writes are events in a log. A failing remote write (the surrounding `try`/`catch`) is not modelled; every logged write counts as sent.
- `localStorage`/`sessionStorage` and JSON persistence (`saveInboxSessions`, `loadInboxSessions`, `lastAction`); the inbox starts from a loaded list given to the constructor.
- Timers, polling and async interleaving: the retry delay, the PIN check's two seconds and the expiry subscription become method calls or loop steps; in-flight deduplication of inbox refreshes is not modelled.
- `refreshInboxEntry`, `startInboxPolling`, `renderInbox` and `addCardFromOfferSession`: remote I/O and UI around the inbox.
- Date, locale and currency formatting (`formatDate`, `formatFieldDisplay`, `formatCurrencyEUR`), which depend on the host clock, locale and floating point; field labels are not modelled, so the missing-fields message carries field keys.
- URL handling (`captureSessionFromUrl`, `scrubSessionParamsFromUrl`); only the key-priority rule of `extractSessionIdFromParams` is modelled, over a map of parameters.
- Seed files and JSON configuration loaded with `fetch`.
- Text.Upper: case mapping covers ASCII letters only; Unicode case mapping is not modelled.
- Text.Lower: case mapping covers ASCII letters only; Unicode case mapping is not modelled.
- Planner.Keys: a payload is an ordered list of fields; JavaScript's ordering of integer-like keys first is not modelled.
- InboxStatus.EffectiveExpiry: remote timestamps are taken to be numbers. The source applies `||` to the raw remote value before the `Number` conversion (js/wallet-app.js:254), which differs only when that value is not a number (the string "0", for one).
- Planner.AttributeTable.SetScenarioAttributes: the configurations are registered in the order given. `Object.entries` visits integer-like scenario ids first, in numeric order (js/wallet-app.js:842); that reordering is not modelled.
- Planner.AddFieldsSpec: the order of the added fields is stated only for an order without repeated names; for an order that repeats a name only the membership and prefix clauses are stated.
- ShareFlow.PendingShare.ToggleField: a click on a field is ignored while the PIN dialog is open (`awaitingPin`), on the assumption that the PIN overlay covers the page. The handler itself (js/wallet-app.js:1471-1476) has no such guard.
- ShareFlow.PendingShare.SelectCard: a click on a card is ignored while the PIN dialog is open (`awaitingPin`), for the same reason. The handler (js/wallet-app.js:1494) has no such guard.
- ShareFlow.RequestCardType: both `getType` reads of a flow are taken to give the same answer, the `rootType` argument.
- ShareFlow.PendingShare.OnPinResult: the plan of each card is fixed when the flow starts (`planOf`); a change of the scenario configuration during the flow is not modelled.
- ShareFlow.PendingShare.ShareCard: the navigation to the done page after a share is not modelled, so a later re-render (a click on a field) can enable the button again.
- PinEntry.PinPad.PressDigit: a pad key's `data-digit` attribute is taken to be a single digit.

## Findings

| source | as written | input that shows it | evidently intended | confidence | as-written member | corrected member |
|---|---|---|---|---|---|---|
| js/wallet-app.js:1509-1546 | the confirm handler checks `_expired` only before it awaits the PIN dialog | the expiry notice fires (js/wallet-app.js:1560-1562) while the PIN dialog is open, and the user then enters the right PIN: the card is shared to an expired session | check `_expired` again once the PIN is accepted, and share nothing if it is set | not executed | ShareFlow.PendingShare.OnPinResultAsWritten, ShareFlow.ExpiryDuringPinStillShares | ShareFlow.PendingShare.OnPinResult, ShareFlow.ExpiryDuringPinIsRefused |

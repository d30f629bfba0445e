# Nova assistant: the action protocol engine

This project models the core of the Nova personal-assistant front end (`App.tsx`) in Dafny.
That core is everything between the text a user sends and the state the assistant keeps:

- **Recall interceptor.** Before any remote call, the trimmed user text is tried against five
  case-insensitive phrasings ("what is my X?", "what's my X?", "what did I tell you about X?",
  "recall my X", "do you remember my X?") in declared order. The first subject that names a
  stored key with a non-empty value is answered from the knowledge base, and the rest of the
  turn is skipped (module `Recall`).
- **Busy guard and routing.** An empty text, a pending request or a missing chat session drops
  the turn. Otherwise the lower-cased text goes to the camera (visual keywords, only when a
  camera is present), to grounded search (search keywords) or to the chat session. The
  grounding chunks with a URI become the web sources. The shown status is derived from the
  busy and speaking flags (module `Routing`).
- **Action tag parser.** A chat reply may carry one tag `[ACTION:<name>:<params>]`; the first
  match of `\[ACTION:([^\]]+)\]` is cut out of the spoken text. Its content is split at the
  first `:` into a name and a params string. The params string is read as `key=value` parts
  separated by `|`, with keys and values trimmed and later keys overwriting earlier ones
  (module `ActionTag`).
- **Dispatcher.** The deferred `switch` over the fourteen action names changes the stores:
  - contacts: a case-insensitive unique name, appended or removed;
  - reminders: appended with a due time of `now + 1000 * seconds`;
  - knowledge: an insertion-ordered, exact-case key store.

  Every known case logs one system message, except `clear_photo` without a camera, which logs
  nothing (`Session.Notice`). `call_contact` and `send_whatsapp` resolve their
  recipient, first as a contact name (ignoring case), then as a phone-like string. The
  dispatcher hands a dial, chat or download request to the host (modules `Directory`,
  `Memory` and class `Session.Assistant`).
- **Reminder tick.** Each second, every reminder due at `now` is logged and spoken as
  `REMINDER: <text>`, and the reminders with its id are removed (`Session.Assistant.Tick`
  with its callback `Session.Assistant.Remind`).
- **Photo handlers.** `capturePhoto`, `clearPhoto` and `handleSavePhoto` (methods of
  `Session.Assistant`).

The React state of `App` is the class `Session.Assistant`:

- the message log;
- the busy and speaking flags;
- the session and photo flags;
- the captured image;
- reminders, contacts and knowledge;
- web sources;
- plus `spoken`, the texts handed to speech synthesis.

Each asynchronous step is a method, run in the order its callback fires:

- `Submit`: the synchronous start of `handleSendMessage`;
- `Receive`: the awaited reply, or the thrown error;
- `Dispatch`: the 500 ms deferred action;
- `Tick`: one run of the reminder interval;
- `SpeechEnded`: the utterance's end callback.

`Dispatch` runs each group of `switch` cases in a method of its own, and those methods share
its contract, the two-state predicate `Session.Assistant.Dispatched`. Every store change is stated as a function of the state before the call:
`ContactsAfter`, `RemindersAfter`, `KnowledgeAfter`, `EffectOf`, `Closes` and `Notice`. The
store functions carry their own lemmas.

The class invariant `Valid` states two facts. Contact names are distinct ignoring case, and
knowledge keys are distinct. Every state-changing method preserves it.

Behaviour of the code worth knowing:

- The recall answer is spoken but **not** appended to the message log; only the user's
  message is logged.
- `forget` deletes the exact-case key, while recall matches keys ignoring case. So "forget,
  then recall" can still hit a case variant of the key: `Recall.ForgetLeavesCaseVariant` and
  `Recall.CaseVariantRecalled` show this for "Color"/"color". `Recall.ForgetThenRecallMisses`
  states when "forget, then recall" does miss: no other case variant is stored.
- `remember` writes the exact-case key given. It does not keep the case of a first write
  whose key differed only in case; both keys are then stored.
- The recall round trip (`Recall.RecallRoundTrip`) holds for any casing of a stored key only
  when no other stored key equals it ignoring case. The code answers from the first such
  key in key order.
- The derived status is never `Idle`.
- `set_reminder` accepts any seconds text that `parseInt` reads, including a negative one
  (a reminder already due) and "90s".
- A part of the params string keeps only the text between its first and second `=`.
- Reminders are removed by id, and the id is the millisecond the reminder was set. Two
  reminders set in the same millisecond share an id, so the due one takes the not-yet-due
  one with it (`Directory.SharedIdDropsPending`). With distinct ids, a tick keeps exactly
  the pending reminders (`Directory.TickKeepsPending`).
- The web sources are cleared at the start of every turn, even one that the busy guard then
  drops.

## Model

| member | source | states |
|---|---|---|
| Text.TrimEmpty | App.tsx:231 | `text.trim()` is empty exactly when every character is JavaScript white space |
| Text.TrimTwice | App.tsx:296 | trimming an already trimmed key or value changes nothing |
| Text.LowerLower | App.tsx:236 | lower-casing is idempotent |
| Text.JoinSplit | App.tsx:288-289 | joining the pieces of a one-character split with that character gives back the string |
| Text.SplitHead | App.tsx:288 | the first piece of a split is the text before the first separator; the rest are the split of what follows it |
| Text.IndexOf | App.tsx:288 | the index found holds the character and no earlier index does |
| ActionTag.FindFrom | App.tsx:277-278 | the tag found is a match of `\[ACTION:([^\]]+)\]` with no earlier match; none is found only when there is no match at all |
| ActionTag.ParseReply | App.tsx:277-289 | an action's name never holds `:`; what is spoken and which action is taken are stated by `ActionTag.NoTagNoAction` and `ActionTag.FirstTagRemoved` |
| ActionTag.NoTagNoAction | App.tsx:277-279 | a reply yields no action exactly when the tag pattern matches nowhere, and then the whole trimmed reply is spoken |
| ActionTag.FirstTagRemoved | App.tsx:277-289 | with a match, the reply is text before + `[ACTION:` + content + `]` + text after; no match starts earlier; the content is non-empty and free of `]`; the spoken text is the trimmed remainder; the action comes from that content |
| ActionTag.SplitContent | App.tsx:287-289 | the name is a prefix of the tag's content; `ActionTag.SplitContentRebuilds` states the cut at the first `:` |
| ActionTag.SplitContentRebuilds | App.tsx:287-289 | the name holds no `:`; name, `:` and params string rebuild a content that has a `:`; otherwise the params string is empty |
| ActionTag.CollectParams | App.tsx:293-297 | the `forEach` loop builds exactly the params map of the params string |
| ActionTag.PartFields | App.tsx:295 | a part's key is the text before its first `=`; its value is the text up to the next `=`; a part without `=` has no value |
| ActionTag.ParamsDomain | App.tsx:294-297 | a key is present exactly when some part with a non-empty key and value has that trimmed key |
| ActionTag.ParamsLastWins | App.tsx:294-297 | the last kept part with a given key decides that key's value |
| ActionTag.ParamsTrimmed | App.tsx:296 | every key and value of the params has no white space at either end |
| ActionTag.Params | App.tsx:293-297 | an empty params string yields no params; its keys, values and overwriting are stated by `ActionTag.ParamsDomain`, `ActionTag.ParamsLastWins` and `ActionTag.ParamsTrimmed` |
| Memory.ToMap | App.tsx:60 | the map view of the ordered store has exactly the stored keys |
| Memory.Put | App.tsx:358 | `{ ...prev, [key]: value }`: an existing key keeps its place and takes the value, a new key goes last, keys stay distinct |
| Memory.Delete | App.tsx:367-371 | `delete`: exactly the entries with the key leave, keys stay distinct |
| Memory.DeleteKeepsOrder | App.tsx:367-371 | deleting from `p + q` is deleting from `p` followed by deleting from `q`: the entries that stay keep their relative order |
| Memory.PutSets | App.tsx:358 | writing a key sets exactly that key in the map view |
| Memory.DeleteRemoves | App.tsx:367-371 | deleting a key removes exactly that key from the map view |
| Memory.FindCI | App.tsx:213 | an entry whose lower-cased key equals the lowered subject and no earlier entry's does; none only when no key matches |
| Memory.ViewMemoryText | App.tsx:377-381 | a non-empty store is listed under the header, and the empty-memory text comes exactly for an empty store; `Memory.ViewMemoryListsAll` states that every entry is listed |
| Memory.ViewMemoryListsAll | App.tsx:377-381 | `view_memory` reports emptiness exactly for an empty store and otherwise lists every entry as `• k: v` |
| Memory.Remember | App.tsx:355-362 | `remember` keeps keys distinct and changes the store only when a key is given |
| Memory.Forget | App.tsx:363-376 | `forget` keeps keys distinct and never grows the store |
| Memory.RememberSetsKey | App.tsx:355-362 | with a key and a value, exactly that key is set and the confirmation names both; otherwise nothing changes and the error is reported |
| Memory.ForgetRemovesKey | App.tsx:363-376 | a stored exact key is removed and nothing else, with the acknowledgement; an unknown key leaves the store and reports that nothing was found; a missing key leaves the store and reports "Error: Key not provided." |
| Memory.RememberThenForget | App.tsx:355-376 | remembering and then forgetting a key leaves it absent and every other key as before |
| Recall.FirstMatch | App.tsx:210 | a match captures at least one character |
| Recall.FirstMatchLeftmost | App.tsx:210 | the match found is at the leftmost position where the pattern matches |
| Recall.FirstMatchNone | App.tsx:210 | no match is found exactly when the pattern matches at no position |
| Recall.Lookup | App.tsx:212-214 | a hit is a stored entry with a non-empty key and a non-empty value whose key equals the trimmed subject ignoring case |
| Recall.LookupFirst | App.tsx:212-214 | the first entry whose key equals the trimmed subject ignoring case decides: it is the hit when its key and value are both non-empty, and otherwise there is none, whatever later entries hold |
| Recall.EmptyKeyNotRecalled | App.tsx:212-214 | a subject that trims to nothing is never answered, even when the empty key is stored |
| Recall.Recall | App.tsx:204-219 | a hit is a stored entry with a non-empty key and a non-empty value; which pattern and which entry is stated by `Recall.RecallInOrder` and `Recall.RecallSound` |
| Recall.Answer | App.tsx:224 | the answer opens with "Based on my records, your ", then names the key, and ends with the value |
| Recall.Intercept | App.tsx:204-219 | the interceptor loop returns the first hit over the patterns in order |
| Recall.FirstHitIsFirst | App.tsx:209-219 | the `break` yields the first try that hits; there is no hit exactly when every try misses |
| Recall.RecallInOrder | App.tsx:204-219 | a recall hit comes from the first pattern that yields one and every earlier pattern missed; a miss means every pattern missed |
| Recall.RecallSound | App.tsx:209-215 | a hit is a stored non-empty entry whose key equals, ignoring case, a subject some pattern captured |
| Recall.CaptureQuestion | App.tsx:205 | a lower-case lead-in, a one-line subject and `?` is matched at its start and the whole subject is captured |
| Recall.WhatIsMyCaptures | App.tsx:205 | "what is my <subject>?" is matched by the first pattern once trimmed, capturing the subject |
| Recall.LookupStored | App.tsx:213-214 | a subject naming, ignoring case, the key of exactly one stored entry, with a non-empty key and a non-empty value, finds that entry |
| Recall.RecallFirstPattern | App.tsx:209-216 | when the first pattern's subject names an entry, that entry is the answer whatever later patterns give |
| Recall.RecallWhatIsMy | App.tsx:204-216 | "what is my <subject>?" is answered from the entry the subject looks up |
| Recall.EqualIgnoringCaseLower | App.tsx:213 | comparing two strings character by character after lowering agrees with comparing the lowered strings |
| Recall.RecallRoundTrip | App.tsx:204-216 | a non-empty stored key with a non-empty value, and no other entry whose key equals it ignoring case, is recalled by "what is my <k>?" for every casing `k` |
| Recall.ForgetThenRecallMisses | App.tsx:363-371 | after forgetting a key with no other case variant stored, asking for any casing of it misses |
| Recall.ForgetLeavesCaseVariant | App.tsx:369 | with "Color" and "color" stored, forgetting "color" keeps "Color" |
| Recall.CaseVariantRecalled | App.tsx:204-216 | "what is my color?" is still answered from "Color" after that forget |
| Directory.AddContact | App.tsx:330-341 | `add_contact` keeps names distinct ignoring case and either leaves the list or appends one contact |
| Directory.DeleteContact | App.tsx:345-354 | `delete_contact` keeps names distinct and never grows the list |
| Directory.DeleteKeepsDistinct | App.tsx:349 | filtering out a name keeps contact names distinct |
| Directory.AddContactOutcomes | App.tsx:330-341 | a missing name or phone, and an existing name ignoring case, change nothing and report their errors; otherwise the new contact goes last |
| Directory.AddContactThenPresent | App.tsx:330-338 | with a name and a phone, the name is in the list after `add_contact`, whether it was there before or not |
| Directory.DeleteContactOutcomes | App.tsx:345-354 | with a name, the list becomes the filter `WithoutNamed` of it, reported as removed when a contact matched and as "Error: Contact '<name>' not found." (list unchanged) when none did; without a name the list is unchanged and "Error: Contact name not provided." is reported |
| Directory.WithoutNamed | App.tsx:349 | the filter never lengthens the list; which contacts stay, and in what order, is stated by `Directory.DeleteContactKeepsOthers` and `Directory.DeleteContactKeepsOrder` |
| Directory.DeleteContactKeepsOthers | App.tsx:349 | the filter `WithoutNamed` keeps exactly the contacts whose names do not match ignoring case; none that matches remains; with no match it keeps the list as it is |
| Directory.DeleteContactKeepsOrder | App.tsx:349 | kept contacts stay in their former order |
| Directory.FindNamed | App.tsx:389 | the contact found matches the name ignoring case; none is found only when no contact matches |
| Directory.Dialable | App.tsx:397 | the dialled number holds no white space or hyphen |
| Directory.DialableKeeps | App.tsx:397 | every other character is kept; a phone-like recipient is dialled as digits and `+` only |
| Directory.IsPhoneLike | App.tsx:387 | "undefined", the text a missing recipient becomes, is never phone-like; `Directory.PhoneLikeDialled`, `Directory.NumberResolves` and `Directory.BobNotFound` state what the pattern accepts and refuses |
| Directory.Resolve | App.tsx:386-394 | when no contact is named by the recipient, a number is found exactly when the recipient is given and phone-like, and it is then the recipient itself; `Directory.ContactBeforeNumber` states the contact case |
| Directory.Reach | App.tsx:384-410 | a hand-off happens exactly when the recipient resolves: a dial for `call_contact`, a chat for `send_whatsapp`, on the resolved number without white space and hyphens; the chat carries the message or `""`; the status is "Initiating call to" the recipient (the number when the recipient is empty), the WhatsApp notice, or "Recipient '<recipient>' not found or invalid." |
| Directory.NumberHandedOver | App.tsx:391-397 | a recipient that names no contact and is handed over is dialled or messaged as digits and `+` only, with at least one digit |
| Directory.PhoneLikeDialled | App.tsx:386-396 | a phone-like string loses its white space and hyphens and keeps a digit |
| Directory.ContactBeforeNumber | App.tsx:389-394 | a matching contact's phone wins over reading the recipient as a number |
| Directory.NumberFallback | App.tsx:389-394 | a recipient naming no contact resolves to itself exactly when it is phone-like |
| Directory.UnresolvedOnlyReports | App.tsx:406-408 | an unresolved recipient only reports "not found or invalid" |
| Directory.BobNotFound | App.tsx:387-394 | "Bob" with no contacts does not resolve |
| Directory.NumberResolves | App.tsx:387-394 | "555-123-4567" is phone-like and resolves to itself |
| Directory.GroupsDialled | App.tsx:397 | digit groups joined by hyphens are dialled as the digits alone |
| Directory.ParseInt | App.tsx:304 | a number is read only from a text that holds a decimal digit; `Directory.ParseUnsigned`, `Directory.ParsePlus`, `Directory.ParseMinus` and `Directory.ParseNaN` state the cases |
| Directory.UnsignedRun | App.tsx:304 | a run of digits followed by a non-digit reads as the run's value |
| Directory.ParseUnsigned | App.tsx:304 | `parseInt` reads an unsigned leading run of digits |
| Directory.ParsePlus | App.tsx:304 | `parseInt` reads a `+`-signed run as its value |
| Directory.ParseMinus | App.tsx:304 | `parseInt` reads a `-`-signed run as the negated value |
| Directory.ParseNaN | App.tsx:304-305 | text without a leading digit ("soon") is `NaN` |
| Directory.SetReminder | App.tsx:303-310 | the list is kept, or grows by exactly one reminder at its end whose id is `now`; a change needs a message and reports success; `Directory.SetReminderAdds` and `Directory.SetReminderRefuses` state each branch |
| Directory.SetReminderAdds | App.tsx:303-310 | with parsed seconds and a message, exactly one reminder with id `now`, due `now + 1000 * seconds`, is appended |
| Directory.SetReminderRefuses | App.tsx:303-310 | otherwise the list is unchanged and the failure is reported |
| Directory.SetReminderFires | App.tsx:144-151 | a reminder set at `now` for `seconds` seconds is due at `t` exactly when `t >= now + 1000 * seconds`; a tick at such a `t` removes it; a tick before keeps it unless a due reminder shares its id |
| Directory.Due | App.tsx:144-145 | never more reminders than the list; `Directory.DueSplits` states which |
| Directory.Fired | App.tsx:144-147 | never more texts than reminders; `Directory.FiredDue` states them |
| Directory.WithoutIds | App.tsx:150 | the filter never lengthens the list; `Directory.WithoutIdsMembers` states which reminders stay |
| Directory.DueSplits | App.tsx:144-145 | the due reminders are exactly those with `now >= dueTime`, the pending ones exactly the others |
| Directory.FiredDue | App.tsx:144-147 | one `REMINDER: <text>` per due reminder, in list order |
| Directory.WithoutIdsMembers | App.tsx:150 | filtering by ids keeps exactly the reminders whose id is not among them |
| Directory.TickKeepsPending | App.tsx:144-151 | with distinct ids, a tick keeps exactly the pending reminders, in order |
| Directory.TickLeavesNothingDue | App.tsx:144-151 | no reminder due at `now` survives a tick |
| Directory.SharedIdDropsPending | App.tsx:150 | two reminders with one id: the not-yet-due one is removed with the due one |
| Routing.RouteOf | App.tsx:236-256 | visual exactly when a visual keyword occurs and a camera is present; search exactly when a search keyword occurs and the turn is not visual |
| Routing.CaseBlindRouting | App.tsx:236-238 | routing ignores letter case |
| Routing.VisualBeatsSearchOnlyWithCamera | App.tsx:241-256 | a text with both kinds of keyword goes to the camera with one and to search without |
| Routing.Dropped | App.tsx:231 | the busy guard; its contract is `Routing.DroppedExactly` |
| Routing.DroppedExactly | App.tsx:231 | a turn is dropped exactly when its text is all white space (the empty text included), a reply is pending or there is no chat session |
| Routing.DeriveStatus | App.tsx:437-442 | thinking exactly when busy, speaking exactly when not busy and speaking, listening otherwise; never idle |
| Routing.SourceOf | App.tsx:265-270 | a source keeps the chunk's URI, and its title falls back to the URI |
| Routing.FilterSources | App.tsx:263-270 | every source has a non-empty URI and title, and there are no more sources than chunks |
| Routing.FilterSourcesAppend | App.tsx:263-270 | filtering works chunk by chunk and keeps order |
| Routing.FilterSourcesOne | App.tsx:263-264 | a chunk yields its source exactly when it has a URI |
| Session.KindOf | App.tsx:299-411 | the case selected by a name has that name |
| Session.KindOfName | App.tsx:299-411 | every case is reached by its own name |
| Session.KindOfNone | App.tsx:299-411 | a name selects no case exactly when it is the name of none |
| Session.Notice | App.tsx:299-411 | a dispatch logs nothing exactly for an unknown name or `clear_photo` without a camera |
| Session.ContactsAfter | App.tsx:330-354 | only `add_contact` and `delete_contact` change the contacts, and names stay distinct ignoring case |
| Session.RemindersAfter | App.tsx:303-310 | only `set_reminder` changes the reminders, keeping the list and appending at most one |
| Session.KnowledgeAfter | App.tsx:355-376 | only `remember` and `forget` change the knowledge base, and keys stay distinct |
| Session.EffectOf | App.tsx:299-410 | a download comes only from `save_photo`, of the non-empty captured image; a dial only from `call_contact`; a chat only from `send_whatsapp` |
| Session.TickStarts | App.tsx:144 | before the loop nothing is removed, logged or spoken |
| Session.TickFires | App.tsx:145-150 | one due reminder extends the removals, log and speech of those before it |
| Session.TickSkips | App.tsx:145 | a reminder not yet due changes nothing |
| Session.Assistant.constructor | App.tsx:49-61 | a fresh session: the greeting logged, not busy, not speaking, active, no photo, empty lists, the stored knowledge |
| Session.Assistant.Log | App.tsx:173 | appends one system message |
| Session.Assistant.Say | App.tsx:119-137 | a non-empty text is spoken and the flag raised; an empty one ends at once |
| Session.Assistant.SpeechEnded | App.tsx:130-132 | the end callback lowers the speaking flag |
| Session.Assistant.Submit | App.tsx:200-257 | sources cleared; a recall hit logs the user message and speaks the answer; a dropped turn changes nothing; an accepted turn is started; keys and names stay distinct |
| Session.Assistant.Proceed | App.tsx:221-234 | the same outcomes, given the recall result |
| Session.Assistant.Start | App.tsx:233-257 | busy, the user message logged, then per route the notice, the camera error spoken, or nothing |
| Session.Assistant.Receive | App.tsx:240-289 | a failed call logs and speaks the error; a grounded reply sets the filtered sources; a chat reply speaks its text without the tag and returns the parsed action; never busy afterwards |
| Session.Assistant.CapturePhoto | App.tsx:159-174 | an image is kept and flagged only when the camera returned one; the matching message is logged |
| Session.Assistant.ClearPhoto | App.tsx:176-183 | with a camera the photo is cleared and the message logged; without one nothing changes |
| Session.Assistant.SavePhoto | App.tsx:185-197 | a download exactly when an image was captured, with the matching message |
| Session.Assistant.Dispatch | App.tsx:291-412 | each store becomes what its case's operation makes of it; the session ends only for `close_app` of "nova"; the photo changes only on a capture with an image or a clear with a camera; the case's notice is logged; the host effect is the case's; an unknown name changes nothing |
| Session.Assistant.RunReminder | App.tsx:303-310 | the `set_reminder` case, with the dispatch contract |
| Session.Assistant.RunContacts | App.tsx:330-354 | the `add_contact` and `delete_contact` cases, with the dispatch contract |
| Session.Assistant.RunMemory | App.tsx:355-376 | the `remember` and `forget` cases, with the dispatch contract |
| Session.Assistant.RunPhoto | App.tsx:300-302 | the photo cases, with the dispatch contract |
| Session.Assistant.RunApp | App.tsx:312-329 | the `open_app` and `close_app` cases, with the dispatch contract |
| Session.Assistant.RunListing | App.tsx:342-383 | the `view_contacts` and `view_memory` cases, with the dispatch contract |
| Session.Assistant.RunReach | App.tsx:384-410 | the `call_contact` and `send_whatsapp` cases, with the dispatch contract |
| Session.Assistant.Remind | App.tsx:144-151 | a due reminder is logged, spoken, and its id removed; one not yet due changes nothing |
| Session.Assistant.Tick | App.tsx:141-156 | the reminders lose the ids of the due ones; the log and speech gain one `REMINDER: <text>` per due reminder in order; speaking when any fired |

## Left out

- Speech recognition, voice selection, rendering and the system-stats widgets are not
  modelled. `components/` and `hooks/` are not part of this model.
- Speech synthesis is reduced to the list of texts handed to it and the speaking flag. The
  cancellation of a previous utterance is not modelled.
- Session.Assistant.Say: models speech synthesis with a voice present. Without one,
  `speak` runs the end callback at once; `SpeechEnded` models that callback.
- The remote chat, vision and search services are inputs (`Response`), and so are the
  camera's `capture()` (`Camera`), the clock (`now`) and whether a chat session exists
  (`chatReady`).
- Splitting the image data URL to base64 for the vision call is left out, since its result
  only reaches the remote service.
- Timers are reduced to step order. The 300 ms delay of the recall answer, the 500 ms
  dispatch delay and the one-second interval are not modelled.
- Session.Assistant.Dispatch: the 1500 ms delay before `close_app` of "nova" ends the
  session is not modelled; the session ends at once.
- The deferred dispatch and the interval read the React state of the render that scheduled
  them. The model reads the current state. Stale closures are not modelled.
- Loading knowledge from local storage and saving it there are left out. The constructor
  takes the stored entries, and a failed JSON parse is treated like an empty store.
- Host hand-offs are values (`HostEffect`), not effects:
  - `tel:` navigation and `window.open` become `Dial` and `OpenChat`;
  - the link download becomes `Download`;
  - the WhatsApp message text is kept raw, without `encodeURIComponent`;
  - the download file name is left out, because it only holds `Date.now()`.
- Letter case is mapped for ASCII only. `toLowerCase` of other letters is not modelled. The
  recall patterns' `i` flag matches exactly the ASCII case variants of their ASCII lead-ins,
  so the lead-ins are matched exactly.
- JavaScript orders integer-like object keys before the others. Knowledge keys are kept in
  plain insertion order.
- Numbers are unbounded integers:
  - `parseInt` of very long digit runs loses precision to floating point;
  - due times beyond the `Date` range become an invalid date, which never compares as due.

  Neither is modelled.
- Recall.ForgetThenRecallMisses: holds only when no other case variant of the key is stored.
  The general claim fails for the code as written (`Recall.CaseVariantRecalled`).
- Memory.Delete: its own contract states which entries stay; the order they stay in is
  stated separately by `Memory.DeleteKeepsOrder`.
- Recall.RecallRoundTrip: holds only when no other stored entry has a key equal to the asked
  one ignoring case. With several such keys the code answers from the first in key order.

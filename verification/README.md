# radarone, modelled in Dafny

radarone watches public Telegram channels for air-raid announcements and
turns each one into alerts. A classifier reads the announcement and answers
with `SEVERITY/REGION/TYPE` records. The listener splits that answer into
records. It checks the hazard type and maps the region onto the official
list. It expands the wildcards:

- `ALL` stands for the four concrete types.
- The nationwide entry "Россия" stands for every other region.

Each concrete (region, type) key is then compared with its last recorded
status. A change is saved to the `attacks` log and sent to every subscriber
of that region. Around this loop sit the other components:

- a PostgreSQL store: the `attacks` log and the `subscriptions` table with
  its ban flags;
- the Telegram bot's pagination, button callbacks, report moderation,
  region commands and admin commands;
- the notification renderer;
- a FastAPI server that folds the log into a region → type → status
  snapshot and pushes it to dashboards over a WebSocket;
- the dashboard's JavaScript: status merge, map colouring, toast queue and
  a reconnecting WebSocket;
- the log-file renamer and the emoji filter.

The model is written as pure functions over immutable values:

- The log is a `seq` of rows, in id order.
- The subscription table is a `seq` of rows. The uniqueness constraint is a
  predicate that operations are proved to keep.
- JavaScript objects are association lists in insertion order. JavaScript
  lists integer-like keys first, in numeric order. The keys here are region
  names, threat types and map aliases, which are never integer-like, so
  insertion order is the real order.
- Python dicts are Dafny maps.
- Sockets, toast managers and connection managers are records, stepped by
  transition functions.
- Clocks, the classifier, Telegram, HTTP, the database engine and the DOM
  are parameters or are left out.

Modules, one per file:

| module | models |
|---|---|
| `PyText` | the Python string built-ins the code relies on (`strip`, `split`, `lower`, `in`, `replace`, `str(int)`, `int(str)`) |
| `Regions` | the exact-then-substring region lookup shared by the listener and the bot |
| `Listener` | `process_message` as a fold over parsed records, and the polling pass of `listener_loop` |
| `Store` | the `db.py` operations on an in-memory log and subscription table |
| `Render` | `format_notification` |
| `Server` | the snapshot fold, `ConnectionManager`, `poll_and_broadcast`, the ping reply |
| `Bot` | pagination, callback parsing, moderation, report forwarding, `status`/`subscribe`/`unsubscribe`, admin commands |
| `Dashboard` | `utils.js` and the status/map parts of `map.js` |
| `Toasts` | the queue/screen state machine of `NotificationManager` |
| `Reconnect` | the `ReconnectingWebSocket` state machine |
| `LogFiles` | `renamer` and `EmojiStripFilter` |
| `Wrappers`, `Seqs` | `Option`/`Result` and small sequence facts |

## Model

| member | source | states |
|---|---|---|
| PyText.Strip | backend/listener.py:40 | the result is the input with only whitespace removed from its two ends: an infix of the input with whitespace before and after it, neither starting nor ending with whitespace; a text with no whitespace at either end is returned unchanged |
| PyText.StripPadded | backend/listener.py:40 | stripping a text wrapped in whitespace gives the same as stripping the text alone |
| PyText.Split | backend/listener.py:40 | the pieces hold no separator and join back to the input |
| PyText.SplitJoin | backend/listener.py:39-40 | splitting a join of separator-free pieces gives back exactly those pieces |
| PyText.SplitFirst | backend/bot.py:70 | without the separator the text is the only part; otherwise the part before the first separator, then the rest, rebuild the text |
| PyText.ReplaceChar | backend/listener.py:39 | every occurrence of one character becomes the other, and nothing else changes |
| PyText.Lower | backend/listener.py:51 | each ASCII or basic Cyrillic capital becomes its small letter and every other code point is kept, position by position |
| PyText.Find | backend/listener.py:51 | `None` exactly when the needle occurs nowhere; otherwise the first position where it occurs |
| PyText.SplitOn | backend/bot.py:101 | splitting on a multi-character separator yields at least one part |
| PyText.IntToString | backend/bot.py:34 | `str(n)` is non-empty, has no surrounding space, starts with '-' iff n is negative, and is otherwise all digits |
| PyText.ParsePadded | backend/bot.py:339 | `int()` ignores whitespace around the number: `int(w1 + s + w2) == int(s)` for any whitespace `w1`, `w2` |
| PyText.ParseMinus | backend/bot.py:339 | a minus sign in front of an unsigned, unpadded text negates its value, and the result is unreadable exactly when the text is |
| PyText.ParsePlus | backend/bot.py:339 | a plus sign in front of an unsigned, unpadded text changes nothing |
| PyText.ParseGrouped | backend/bot.py:339 | one underscore between two digits is ignored (`int("12_34") == int("1234")`), and a plain digit run reads as its decimal value |
| PyText.ParseDoubleUnderscore | backend/bot.py:339 | two underscores in a row make any text unreadable, wherever they stand |
| PyText.ParseInt | backend/bot.py:108 | a value comes iff the stripped text is an optional sign followed by underscore-grouped ASCII digits, so only from a non-blank text; a negative value only from a leading minus; a plain run of ASCII digits reads as its decimal value |
| PyText.ParseRejectsStray | backend/bot.py:108 | a stripped text holding any character other than a digit, an underscore or a leading sign is unreadable |
| PyText.IntRoundTrip | backend/bot.py:108 | `int(str(n)) == n` for every integer, so the page number written into a callback reads back |
| Regions.FirstLooseMatch | backend/listener.py:50-53 | `None` iff no entry contains the lower-cased raw name; otherwise the first entry that does |
| Regions.Canonicalise | backend/listener.py:49-56 | an exact list member is kept; otherwise the result is an entry containing the name (which one is `Regions.CanonicalIsFirstMatch`); `None` (record skipped) iff neither exists; a result is always a list member |
| Regions.CanonicalIsFirstMatch | backend/listener.py:50-53 | a name that is not a member resolves to the FIRST entry containing it, even when later ones also do |
| Regions.UniqueMatchResolves | backend/listener.py:49-56 | a name contained in exactly one entry resolves to that entry |
| Regions.EmptyNameResolvesToFirst | backend/listener.py:50-53 | the empty region name is contained in every entry and resolves to the first one |
| Listener.Pieces | backend/listener.py:39 | the answer is cut at commas and newlines: no piece holds either character |
| Listener.ParsePiece | backend/listener.py:40-45 | a piece yields a record iff its stripped text has exactly three '/'-fields; status and type hold no '/' |
| Listener.Records | backend/listener.py:39-43 | one entry per piece, `None` marking a piece that is skipped |
| Listener.ParseRecordText | backend/listener.py:40-45 | the `status/region/type` text of a record with clean fields parses back to that record |
| Listener.RecordsRoundTrip | backend/listener.py:39-45 | an answer listing clean records, comma-separated, parses back into exactly those records, in order |
| Listener.PiecesOfAnswer | backend/listener.py:39 | the pieces of such an answer are the records' texts |
| Listener.NewlineIsComma | backend/listener.py:39 | a newline separates records exactly as a comma does |
| Listener.RecordsConcat | backend/listener.py:39-43 | the records of two answers joined by a comma are the first's followed by the second's |
| Listener.Validate | backend/listener.py:44-56 | a record passes iff its type is one of UAV, AIR, ROCKET, UB, ALL and its region canonicalises; the region is replaced by the canonical one |
| Listener.SeverityNeverChecked | backend/listener.py:44-48 | changing the severity never changes whether a record passes, and any severity text is carried through |
| Listener.AllKinds | backend/listener.py:79 | `ALL` expands to UAV, AIR, ROCKET, UB in that order for the one region |
| Listener.Nationwide | backend/listener.py:98-144 | every nationwide target names a listed region other than the wildcard, carries the record's status, and has the record's type or, for `ALL`, a concrete one |
| Listener.Expand | backend/listener.py:58-144 | every target carries the record's status, and a validated record yields only concrete types |
| Listener.ExpansionShape | backend/listener.py:58-144 | case by case: a concrete record gives itself; `ALL`+`AC` on a region gives the four types; a non-`AC` `ALL` or wildcard record gives nothing; a wildcard `AC` record gives exactly the listed non-wildcard regions with its type(s) |
| Listener.NationwideCovers | backend/listener.py:98-144 | every listed non-wildcard region receives each type the record names (no `UB` eligibility gate) |
| Listener.NationwideConcat | backend/listener.py:99-144 | the expansion follows the region list in order: two halves of the list expand one after the other |
| Listener.Targets | backend/listener.py:39-144 | every target of an answer has a concrete type and a listed, non-wildcard region |
| Listener.TargetsConcrete | backend/listener.py:58-144 | the same bound for any sequence of parsed records |
| Listener.TargetsConcat | backend/listener.py:39-56 | two answers joined by a comma give the first's targets, then the second's: a skipped record never stops later ones |
| Listener.MalformedSkipped | backend/listener.py:40-43 | a piece without exactly three fields contributes nothing, and the rest is processed as if it were absent |
| Listener.FanOut | backend/listener.py:71-77 | one send per subscriber, in order, each with the same alert; a send is delivered iff that user's send does not fail, and a failure does not stop later sends |
| Listener.AlertText | backend/listener.py:71 | the alert sent for a target opens with the all-clear header iff its status is "AC", else with the warning header, and ends with the quoted comment iff the message has a truthy comment |
| Listener.Reconcile | backend/listener.py:59-77 | afterwards the key's last status is the proposed one; the log changes iff it differed (absent counts as different), and then by exactly one appended row; sends happen only after a save and go to exactly the region's subscribers |
| Listener.ReconcileAll | backend/listener.py:58-144 | the log is only appended to, at most one row per target, each row from some target with the source and the single clock reading given for the run; nothing is sent unless a row was saved |
| Listener.ReconcileAllConcat | backend/listener.py:58-144 | reconciling two target lists is reconciling the first and then the second on the resulting log |
| Listener.ReconcileTwice | backend/listener.py:59-65 | the same triple twice in a row saves at most once; the second is always a repeat |
| Listener.ReconcileAllSettles | backend/listener.py:59-65 | after a run, each key's last status is what its last target proposed; keys no target names keep their old status |
| Listener.SettledIsQuiet | backend/listener.py:60-63 | targets that already match the log save and send nothing |
| Listener.Process | backend/listener.py:39-144 | processing an answer only appends rows, each for a listed non-wildcard region and a concrete type |
| Listener.ProcessConcat | backend/listener.py:39 | an answer joined from two is processed as the first, then the second |
| Listener.ProcessAgainIsQuiet | backend/listener.py:39-144 | an answer whose targets name each key once reaches a fixpoint: processing it again saves and sends nothing |
| Listener.PollOne | backend/listener.py:151-159 | a channel's text is handed on iff the fetch succeeded with a non-empty text different from the last seen one; the seen map is updated exactly then |
| Listener.PollAll | backend/listener.py:148-161 | a pass hands on at most one text per channel, each non-empty and recorded as seen; no channel is forgotten |
| Listener.PollAllConcat | backend/listener.py:149-161 | a pass over two channel lists is a pass over the first, then the second |
| Listener.FailedChannelSkipped | backend/listener.py:150-161 | a channel whose fetch raised is passed over as if it were not configured; the channels after it are still read |
| Listener.PollRecordsTexts | backend/listener.py:154-157 | after a pass over distinct channels, each channel with a fresh text has it recorded as seen; channels outside the pass keep their entries |
| Listener.PollSeenIsQuiet | backend/listener.py:154-156 | a pass in which every channel offers its last-seen text hands nothing on and changes nothing |
| Listener.PollAgainIsQuiet | backend/listener.py:149-157 | polling the same distinct channels with the same results a second time hands nothing on |
| Listener.FallbackRecords | backend/analyzer.py:102 | the classifier's failure answer holds exactly one record, AC/Россия/ALL |
| Listener.FallbackAnswerParses | backend/analyzer.py:102 | for a region list containing "Россия", the failure answer expands as its single record does |
| Listener.WrittenWildcardMissesNationwide | backend/listener.py:58-97 | with the wildcard literal as written, the failure answer targets the four concrete types of "Россия" itself with `AC`, and no other region |
| Listener.WildcardClearsOthers | backend/listener.py:98-144 | with "Россия" as the wildcard, the same answer targets the four concrete types of every other region ("Москва") with `AC`, and nothing for "Россия" |
| Listener.WrittenWildcardSavesNationwide | backend/listener.py:58-97 | with the wildcard literal as written, processing the failure answer saves only `AC` rows for "Россия", leaves it all-clear for the four types, and leaves "Москва" as it was |
| Listener.WildcardSettlesOthers | backend/listener.py:98-144 | with "Россия" as the wildcard, processing the same answer saves only `AC` rows for "Москва", leaves it all-clear for the four types, and leaves "Россия" as it was |
| Listener.ProcessClearsOneRegion | backend/listener.py:39-144 | when an answer's targets are the four types of one region with `AC`, processing saves only such rows, leaves that region all-clear and every other region's status as it was |
| Listener.AllKindsProposed | backend/listener.py:58-97 | the four `AC` targets of one region propose `AC` exactly for that region's four concrete types, and nothing else |
| Store.SaveAttack | backend/db.py:110-119 | appends exactly one row holding the given fields; earlier rows are unchanged |
| Store.LatestIndex | backend/db.py:135-139 | the position of the highest-id row for the key: no later row has the key; `None` iff no row has it |
| Store.LastStatus | backend/db.py:132-163 | `None` iff no row has the (region, type) key; otherwise the status of such a row |
| Store.LastStatusStep | backend/db.py:135-139 | the newest row decides the key's status if it has the key; otherwise the earlier rows do |
| Store.SaveThenLastStatus | backend/db.py:110-139 | after `save_attack` the saved key's last status is the saved status, and every other key's is unchanged |
| Store.RegionStatuses | backend/db.py:140-160 | the type → status map holds exactly the types the region has rows for, each with its latest status |
| Store.GetLastStatus | backend/db.py:132-163 | with a non-empty type, the key's last status; with `None` or the empty type, the region with a map that holds exactly the types the region has rows for, each with its last status |
| Store.AttacksByRegion | backend/db.py:121-130 | min(limit, count) of the region's rows, newest first: entry i is the region's (i+1)-th newest row |
| Store.NewestRowIsLastStatus | backend/db.py:121-139 | the first row `get_attacks_by_region` lists agrees with `get_last_status` for its type |
| Store.AddSubscription | backend/db.py:165-178 | returns True iff the pair was absent, and then appends one unbanned row; otherwise the table is unchanged; uniqueness is kept |
| Store.WithoutPair | backend/db.py:183 | the DELETE keeps exactly the rows that are not the (user, region) pair; a NULL region matches nothing |
| Store.RemoveSubscription | backend/db.py:180-186 | always returns True; exactly the given pair stops being subscribed; no other user's ban changes, and the user is not newly banned |
| Store.RemoveLiftsBan | backend/db.py:180-186 | deleting a banned user's only flagged row leaves them unbanned |
| Store.KeepBan | backend/db.py:226-235 | after a deletion that touched no other user's ban, every user's ban is as before the deletion, and the subscriptions are those after it |
| Store.RemoveUndoesAdd | backend/db.py:165-186 | removing a pair that was just added restores the table exactly |
| Store.GetSubscriptions | backend/db.py:188-195 | lists exactly the user's subscribed regions, plus `None` iff the user has a region-less row |
| Store.GetUsersByRegion | backend/db.py:197-204 | lists exactly the region's subscribers, banned ones included, each once while the table keeps its uniqueness |
| Store.SubscribersAreAllUsers | backend/db.py:197-213 | every subscriber of a region is among `get_all_users`; banned users are not filtered |
| Store.GetAllUsers | backend/db.py:206-213 | exactly the users with some row, banned or region-less rows included |
| Store.IsBanned | backend/db.py:215-224 | a banned user is among `get_all_users`, so the broadcast reaches banned users too |
| Store.SetBanFlag | backend/db.py:231 | the UPDATE sets the flag on every row of the user and leaves other rows alone |
| Store.BanUser | backend/db.py:226-241 | the user ends up banned; a notice is sent iff they were not banned before; an already banned user changes nothing; other bans, the subscriptions and uniqueness are kept; the users become the old ones plus this one |
| Store.UnbanUser | backend/db.py:243-256 | the user ends up unbanned; a notice is sent iff they were banned; otherwise nothing changes; other bans and the subscriptions are kept |
| Store.BanThenUnban | backend/db.py:226-256 | banning then unbanning a user who was not banned restores the table, except for the region-less row inserted for a user who had no rows |
| Store.AddKeepsBan | backend/db.py:165-178 | subscribing neither bans nor unbans anyone, although the new row itself is unflagged |
| Render.ShownSource | backend/notifications.py:21 | the source is shown as "Admin" iff it is "Admin", and as '@' followed by the source otherwise |
| Render.UnknownCodesPassThrough | backend/notifications.py:18-19 | a type or status code outside the tables is shown verbatim |
| Render.LabelsSingleLine | backend/notifications.py:4-15 | no table label holds a newline |
| Render.ShownSourceInjective | backend/notifications.py:21 | distinct sources are never shown alike |
| Render.FormatNotification | backend/notifications.py:17-38 | the message starts with the all-clear header iff the status is "AC", and with the warning header iff it is any other status; it ends with the closed quote block iff the comment is truthy (present and non-empty) |
| Render.HeadersExclusive | backend/notifications.py:23-30 | no message starts with both headers |
| Render.WithComment | backend/notifications.py:37 | the comment block extends the template text and ends with the closing tags |
| Render.MessageIsJoin | backend/notifications.py:22-37 | the message is the template's lines, then the comment lines if any, joined by newlines |
| Render.FieldsRecoverable | backend/notifications.py:22-37 | for newline-free fields, splitting the message at newlines gives back the template's lines, which carry the region, readable type and status, shown source and timestamp, followed by the comment lines |
| Server.FileRow | backend/main.py:127-129 | filing a row adds its region to the snapshot's regions and no other |
| Server.SnapshotOf | backend/main.py:111-130 | the snapshot holds exactly the regions with rows, each mapping exactly its types with rows to their latest status |
| Server.SnapshotEntryIsRegionReport | backend/main.py:114-121 | a region's snapshot entry equals the type → status map `get_last_status(region)` reports |
| Server.SnapshotAfterSave | backend/main.py:111-130 | saving a row changes the snapshot exactly as filing that row does |
| Server.Connect | backend/main.py:38-48 | the client joins the active set, and is sent the last snapshot, as a `snapshot` envelope, iff there is one |
| Server.Disconnect | backend/main.py:50-54 | the client leaves the active set; no other client and not the last snapshot changes |
| Server.DisconnectAbsent | backend/main.py:52-53 | disconnecting a client that is not connected changes nothing |
| Server.ConnectThenDisconnect | backend/main.py:38-54 | connecting and then disconnecting a new client restores the manager |
| Server.SendEach | backend/main.py:60-69 | the send loop removes exactly the listed clients whose send fails |
| Server.Broadcast | backend/main.py:56-69 | the frame is sent once to each client in the given order of the clients connected at the start, and to no one else; afterwards the active set is the old one minus the failing clients |
| Server.PollAndBroadcast | backend/main.py:177-183 | returns the fresh snapshot either way; broadcasts iff it differs from the last one pushed, and then stores it, sends the envelope `{"type": "snapshot", "data": snapshot}` to exactly the connected clients, and drops the failing ones; otherwise nothing changes |
| Server.PollTwiceIsQuiet | backend/main.py:177-183 | polling an unchanged log a second time pushes nothing and changes nothing |
| Server.ConnectAfterPoll | backend/main.py:177-181 | after any poll, a newly connected client is sent the snapshot just read |
| Server.PingReply | backend/main.py:100-104 | a reply is given iff the text is "ping", and it is the bare snapshot, not wrapped in an envelope |
| Bot.SliceBound | backend/bot.py:20-22 | a Python slice bound is clamped to the sequence; negative bounds count from the end |
| Bot.TotalPages | backend/bot.py:19 | `(len - 1) // 10 + 1` is the least number of ten-entry pages holding every entry, and zero for an empty list |
| Bot.PageEntries | backend/bot.py:20-22 | page p shows entries [10p, 10p+10) clipped to the list; a page past the end, or page -1, shows none |
| Bot.EntryLine | backend/bot.py:25-27 | the "Россия" entry is shown as the `last_command` line; any other entry as a back-quoted command line containing it |
| Bot.RegionPage | backend/bot.py:24-38 | a header, then one line per entry of the page; a back button iff page > 0 and a forward button iff page < total - 1, each naming the neighbouring page |
| Bot.NavButtons | backend/bot.py:31-38 | the back button comes first when present, the forward button last, with the neighbouring page in the callback |
| Bot.PagesCover | backend/bot.py:19-22 | the pages, read in order, show every entry exactly once, in list order |
| Bot.NavigationInRange | backend/bot.py:33-36 | every navigation button leads to an existing page next to the current one |
| Bot.ParsePageCallback | backend/bot.py:100-111 | "unsupported" iff the data does not split into exactly two parts at `_page_`; a request carries the first part and the page `int()` reads from the second |
| Bot.CallbackRoundTrip | backend/bot.py:100-111 | the callback of a navigation button parses back to its command and page |
| Bot.ModerationParts | backend/bot.py:69-70 | an approve/reject callback splits at its first '_' into the action and the id, and these rebuild the data |
| Bot.Moderate | backend/bot.py:69-98 | as intended: "not found" iff the report is not stored; a stored report is marked handled; only an approval of an unhandled report forwards its text |
| Bot.ModerateAsWritten | backend/bot.py:72-78 | as written: the click raises iff the report is not stored, and "not found" is never answered |
| Bot.ModerationAgreesWhenStored | backend/bot.py:72-98 | for a stored report the written and the intended branch agree |
| Bot.MissingReportRaises | backend/bot.py:72-78 | approving a report the bot does not hold raises as written, where "not found" was intended |
| Bot.ModeratedOnce | backend/bot.py:80-86 | a second click on either button of a report is answered "already handled", changes nothing and forwards nothing |
| Bot.ForwardReport | backend/bot.py:291-312 | unless cancelled, each admin's forwarded copy is stored unhandled under `report_<id>` with the user, text and time, and the stored keys become the old ones plus the copies'; a cancelled report changes nothing; every older report not overwritten by a copy keeps its value |
| Bot.ButtonsFindReport | backend/bot.py:314-317 | both buttons of a forwarded copy are moderation callbacks that refer to that copy's stored report |
| Bot.ApproveForwardsText | backend/bot.py:307-317 | approving a freshly forwarded copy hands the user's text on |
| Bot.Shown | backend/bot.py:116-120 | subscriptions are listed in order, and a region-less row prints as "None" |
| Bot.PageClick | backend/bot.py:100-122 | an unparsable callback is answered "unsupported", a bad number "bad page"; a parsed `subscribe` or `status` request shows that page of the region list with its own last line; an `unsubscribe` request answers "no subscriptions" iff the user holds none, and otherwise shows that page of the user's subscriptions; any other command gets no reply |
| Bot.HandleClick | backend/bot.py:57-122 | cancel answers "cancelled"; an approve or reject button is moderated; any other button is answered as its page callback, leaving the reports alone; text is forwarded only on an approve button |
| Bot.SubscribePageClick | backend/bot.py:113-114 | a page callback of the `subscribe` list shows that page of the region list |
| Bot.NavigationClick | backend/bot.py:100-114 | pressing a navigation button of the region list shows the neighbouring page it names |
| Bot.StatusCommand | backend/bot.py:162-188 | with no argument, the first region page; else "not found" iff the lookup fails; for a name that resolves, the reply names the canonical region: "no records" iff it has no rows, otherwise its min(5, count) rows, newest first |
| Bot.SubscribeAll | backend/bot.py:191-196 | the user becomes subscribed to every listed region except "Россия", and nothing else changes, ban flags included |
| Bot.SubscribeCommand | backend/bot.py:190-215 | `all` subscribes the user to every listed region but the nationwide one; no argument shows the first page; an unknown name is rejected iff the lookup fails, changing nothing; a name that resolves adds exactly the pair with the canonical region, answering "subscribed" iff it was not held and "already" iff it was; ban flags and uniqueness are kept |
| Bot.SubscribeAllCovers | backend/bot.py:191-193 | after `subscribe all` the user follows every listed region but "Россия" |
| Bot.UnsubscribeEach | backend/bot.py:219-222 | exactly the user's listed subscriptions other than "Россия" are removed; no other user's ban changes, and the user is not newly banned |
| Bot.UnsubscribeCommand | backend/bot.py:217-240 | `all` removes every subscription of the user but the nationwide one; a name is looked up but not rejected: exactly the pair with the canonical name, or the raw text, is removed and every other subscription is kept; "no subscriptions" iff no argument and none held; with no argument and some held, the first page of the user's subscriptions; no other user's ban changes, and the user is not newly banned |
| Bot.UnsubscribeLiftsBan | backend/bot.py:219-222 | a user banned while following only "A" is no longer banned after `unsubscribe all` |
| Bot.UnsubscribeKeepingBan | backend/bot.py:217-240 | the same reply and the same subscriptions as `unsubscribe`, with every user's ban, the caller's included, as before |
| Bot.UnsubscribeAllLeavesNationwide | backend/bot.py:219-225 | after `unsubscribe all` the user follows at most "Россия" |
| Bot.UnsubscribeUnknownName | backend/bot.py:226-235 | a name matching no region is still reported unsubscribed, verbatim |
| Bot.AdminGate | backend/bot.py:335 | a user passes the gate of a comma-joined id list iff their id is in it |
| Bot.IsAdmin | backend/bot.py:335 | an empty `ADMIN_USER_ID` admits no one, and an admitted user's id is written inside it |
| Bot.ModerationTarget | backend/bot.py:334-341 | with a space in the text, the target is what `int()` reads from the first word; with none, there is no target |
| Bot.BanCommand | backend/bot.py:333-346 | only an admin with a readable id and a reason bans; that user is then banned, other bans are kept; subscriptions never change |
| Bot.UnbanCommand | backend/bot.py:348-361 | the mirror of `/ban`: the named user ends up unbanned, everything else as before |
| Bot.BanReachesUser | backend/bot.py:333-342 | `/ban <id> <reason>` from an admin bans the user it names |
| Bot.BanWithoutReasonIgnored | backend/bot.py:339-346 | `/ban <id>` without a reason changes nothing: the missing reason raises and is caught |
| Bot.IsBannedCommand | backend/bot.py:363-375 | a non-admin or a missing id gets no answer; an admin with an id gets an answer iff `int()` reads the id, and it says whether that user is banned |
| Dashboard.Get | frontend/js/utils.js:33 | a key's lookup is `None` iff no entry has the key; otherwise the value of an entry with the key |
| Dashboard.Put | frontend/js/utils.js:34 | after assignment the key holds the value and no other key changes; a new key goes last |
| Dashboard.PutKeepsKeys | frontend/js/utils.js:34 | assigning an existing key keeps every key in its place, so keys stay distinct |
| Dashboard.Overall | frontend/js/utils.js:66-72 | one of HD, MD, AC or 'Не задан'; 'Не задан' for a missing entry |
| Dashboard.OverallIsHighestRank | frontend/js/utils.js:66-72 | the overall status ranks at least as high as every value (HD > MD > AC), and is one of them unless none ranks |
| Dashboard.Color | frontend/js/utils.js:9-16 | the default blue iff the status is none of HD, MD, AC |
| Dashboard.ColorShowsRank | frontend/js/utils.js:9-16 | equal colours mean equal severity rank |
| Dashboard.CaptionsDistinct | frontend/js/utils.js:74-85 | each of the seven codes has its own caption, never 'Не задан' |
| Dashboard.Caption | frontend/js/utils.js:74-85 | the caption is 'Не задан' exactly for a code outside the seven, and never empty |
| Dashboard.UnknownCaption | frontend/js/utils.js:83 | any other code, the empty one included, reads 'Не задан' |
| Dashboard.Icon | frontend/js/utils.js:87-94 | the "notifications" icon iff the type is none of AC, MD, HD |
| Dashboard.MergeKeys | frontend/js/utils.js:30-44 | every key of the update ends up with its new value and no other key changes; the notices are exactly one per update whose value differs from the old one, in update order (`Dashboard.Changes`, judged against the old object alone) |
| Dashboard.MergeTwiceIsQuiet | frontend/js/utils.js:30-44 | merging the same statuses a second time stores and announces nothing |
| Dashboard.MergeKeysNoChange | frontend/js/utils.js:33 | updates the region already agrees with change nothing and notify nobody |
| Dashboard.UpdateRegion | frontend/js/utils.js:30-44 | no region, an empty name or no statuses: nothing happens; it throws iff the region is unknown and there is a key to write; otherwise the region's cells take the new values, all else is kept, and one notice is raised per changed type, in order |
| Dashboard.SetCell | frontend/js/map.js:192-195 | the cell gets the value; a missing region is first created blank; other regions and cells are untouched |
| Dashboard.SnapshotRegion | frontend/js/map.js:191-196 | every type a region's snapshot lists is written; unlisted types keep their values; other regions are untouched |
| Dashboard.MergeSnapshot | frontend/js/map.js:189-197 | every cell afterwards is what `Dashboard.SnapshotCell` reads off the frame and the old board: a listed cell takes the frame's value, an unlisted type of a region new to the board starts blank, and every other cell keeps its value; so no region and no type is ever removed |
| Dashboard.SnapshotCellsWritten | frontend/js/map.js:190-195 | every (region, type, status) of the snapshot is on the board afterwards |
| Dashboard.NewRegionStartsBlank | frontend/js/map.js:192-194 | a region first seen in a snapshot, with at least one type, holds the listed types with their values, each of the four types the snapshot omits as "", and nothing else |
| Dashboard.Resolve | frontend/js/map.js:149 | an alias with a non-empty mapping resolves to it; a name without one stays as it is |
| Dashboard.KeepUkrainian | frontend/js/map.js:138-151 | a Ukrainian feature is kept iff its resolved name is an allowed region |
| Dashboard.Combined | frontend/js/map.js:153-159 | the Russian features come first, all of them; every Ukrainian feature whose resolved name is allowed is drawn, and anything else drawn is such a feature; a collection that failed to load adds nothing |
| Dashboard.FillColor | frontend/js/utils.js:54-58 | a feature whose region the board does not hold is painted the default blue |
| Dashboard.HighSeverityPaintsRed | frontend/js/utils.js:54-58 | a region with any HD type is painted red |
| Dashboard.PopupRows | frontend/js/map.js:244-253 | a row for a type iff the region holds it, except that `UB` is shown only for the coastal regions; an unknown region has none |
| Toasts.NormaliseType | frontend/js/notifications.js:34 | AC, MD and HD keep their style; anything else becomes 'default' |
| Toasts.OrElse | frontend/js/notifications.js:48-50 | a missing or empty text falls back; otherwise the text is shown |
| Toasts.CardShowsSeverity | frontend/js/notifications.js:33-52 | a severity type gets its colour, icon and caption; any other shows the neutral blue card with 'Не задан' |
| Toasts.Render | frontend/js/notifications.js:33-52 | the card's style is a severity code or `default`; no text on it is empty: a missing or empty attack or region text reads 'Неизвестно', a given one is shown as is |
| Toasts.Process | frontend/js/notifications.js:20-31 | requests move on screen in arrival order until the screen is full or the queue is empty, and the screen stays within `maxVisible` |
| Toasts.ProcessIdempotent | frontend/js/notifications.js:20-31 | processing the queue twice is processing it once |
| Toasts.Show | frontend/js/notifications.js:15-18 | the request is queued at the back; it either reaches the screen as its last toast or waits at the back of the queue while the screen is full |
| Toasts.ShowKeepsGood | frontend/js/notifications.js:15-31 | with room, the toast appears at once at the end of the screen; without, only the queue grows; the manager stays well-formed |
| Toasts.Without | frontend/js/notifications.js:92 | the filter keeps exactly the toasts with another identity, in order |
| Toasts.Hide | frontend/js/notifications.js:86-95 | every other toast stays on screen, and the queue is processed again |
| Toasts.HideRemovesExactly | frontend/js/notifications.js:92 | hiding removes exactly the toast with that identity from the screen |
| Toasts.HideKeepsGood | frontend/js/notifications.js:86-95 | hiding keeps a manager well-formed |
| Toasts.HideRefills | frontend/js/notifications.js:90-93 | the freed place goes to the first waiting request, if any |
| Toasts.New | frontend/js/notifications.js:4-13 | construction throws iff there is no container; otherwise empty, with the given `maxVisible` or 3 |
| Toasts.ShowNotification | frontend/js/notifications.js:114-120 | before initialisation nothing happens; afterwards it is `show` |
| Toasts.NeverOverfull | frontend/js/notifications.js:20-31 | whatever is shown and hidden, never more than `maxVisible` toasts are on screen and no request waits while there is room |
| Reconnect.Delay | frontend/js/ws.js:59-62 | the wait is the smaller of `baseDelay·2^attempts` and `maxDelay`: at most each, and equal to one of them |
| Reconnect.DelayDoubles | frontend/js/ws.js:59-62 | each further attempt doubles the wait until it reaches the cap |
| Reconnect.DelayMonotone | frontend/js/ws.js:59-62 | with a non-negative base the wait never shrinks as attempts grow |
| Reconnect.DelayCapped | frontend/js/ws.js:59-62 | once `baseDelay·2^attempts` passes the cap, the wait is the cap |
| Reconnect.Connect | frontend/js/ws.js:22-24 | a new socket starts connecting; nothing else changes |
| Reconnect.New | frontend/js/ws.js:2-20 | options default to 1000, 30000 and 0 only when absent (`??`); no attempts, no timer, one connection under way |
| Reconnect.ScheduleReconnect | frontend/js/ws.js:51-70 | a no-op while a timer is pending or a non-zero `maxAttempts` is reached; otherwise a timer for the current back-off |
| Reconnect.ClearTimer | frontend/js/ws.js:72-77 | no timer remains; nothing else changes |
| Reconnect.TimerFires | frontend/js/ws.js:65-69 | the attempt count grows by one, the timer is cleared and a new socket is opened; without a timer nothing happens |
| Reconnect.Opened | frontend/js/ws.js:26-31 | a successful open resets the count and clears any timer |
| Reconnect.Dropped | frontend/js/ws.js:41-48 | a drop reconnects unless the close was asked for |
| Reconnect.Close | frontend/js/ws.js:87-91 | sets the manual flag, clears the timer and starts closing |
| Reconnect.Send | frontend/js/ws.js:79-85 | data goes out iff the socket is open; otherwise it is dropped |
| Reconnect.ClosedStaysClosed | frontend/js/ws.js:43-46 | after a manual close, whatever happens, no timer is set and no socket opened |
| Reconnect.CloseStopsReconnecting | frontend/js/ws.js:87-91 | `close()` from any state ends reconnecting for good |
| Reconnect.DropReconnects | frontend/js/ws.js:41-69 | a drop with retries left schedules the current delay; when it fires, a counted attempt reconnects |
| Reconnect.AlwaysSound | frontend/js/ws.js:51-69 | from a sound state every run stays sound: a pending wait never exceeds `maxDelay`, a positive `maxAttempts` bounds the retries, and the options never change |
| Reconnect.NewIsSound | frontend/js/ws.js:2-20 | a fresh wrapper is sound whenever `maxAttempts` is not negative |
| LogFiles.RFind | backend/logger.py:27 | -1 iff the character is absent; otherwise its last position |
| LogFiles.SplitExt | backend/logger.py:28 | `splitext` splits the path into two parts that rebuild it; the extension is empty or one dot followed by no dot and no slash |
| LogFiles.HasExtension | backend/logger.py:28 | there is an extension iff the last component has a dot with a non-dot character before it |
| LogFiles.Renamer | backend/logger.py:26-29 | renaming raises iff the name holds no dot |
| LogFiles.RotatedName | backend/logger.py:26-29 | the rotated `dir/stem.ext.date` becomes `dir/stem_date.ext` |
| LogFiles.StripEmoji | backend/logger.py:10-18 | exactly the characters outside the four emoji ranges are kept; a text without emoji is unchanged |
| LogFiles.StripConcat | backend/logger.py:23 | stripping works character by character, keeping the order of what it keeps |
| LogFiles.StripIdempotent | backend/logger.py:23 | stripping twice is stripping once |
| LogFiles.RangeEdges | backend/logger.py:12-15 | the ends of the ranges are emoji; the code points just outside them are not |
| LogFiles.Filter | backend/logger.py:20-24 | every record is kept; a text message becomes its text with the emoji stripped (`LogFiles.StripEmoji`, order and repeats kept), and any other message is left alone |
| LogFiles.FilterTwice | backend/logger.py:20-24 | filtering twice, as the console and file handlers do, is filtering once |

## Left out

- Network and I/O are not modelled: the Telegram scrape in `get_last_message` (backend/listener.py:17-30), Telegram sends, the HTTP and WebSocket transports, and PostgreSQL itself. A fetch result, a set of failing recipients and an ordering of clients are parameters instead.
- The classifier call in `process_message` is not modelled. The listener starts from the classifier's answer text. As written, the call passes one argument to a two-argument function (backend/listener.py:34), so the exception is swallowed at lines 35-37.
- The `process_message(channel_name=…)` calls at backend/bot.py:92 and :385 are not modelled. `process_message` has no such parameter, so those calls raise. `Bot.Moderate` reports the text handed on, and `admin_report`/`admin_message` are not modelled.
- `admin_report` reads `user_answer[1]` before its admin gate, which raises without a ';' (backend/bot.py:378-381). It is not modelled, for the reason above.
- The region list, the alias table `nameMap`, the channel list and the admin id list are configuration that is not shown. They are parameters.
- Clocks are parameters: timestamps, time-zone formatting, the polling interval and `asyncio.sleep`.
- Listener.ReconcileAll: takes one clock reading, `Context.timestamp`, for every row saved and every message sent while one answer is processed. The source reads the clock afresh for each save (backend/db.py:112) and each message (backend/notifications.py:20), so within a run its timestamps may differ by the time the run takes; the model does not promise distinct readings.
- The `asyncio.Lock`, threads, `pg_listen_and_forward`, its JSON payload parsing, and service start and stop are not modelled. The connection manager is modelled sequentially.
- Log lines and log levels are not modelled; the emoji filter is.
- DOM work, maplibre layers, popups as HTML, `requestAnimationFrame`, the auto-hide timer and the floating-point progress bar are not modelled. A toast's DOM element is modelled as an identity from a counter. A pending timer is modelled as the delay it was set with.
- The static texts of `start`/`help`/`about`/`channels`, and the conversation handler wiring, are not modelled.
- Reply texts are modelled as reply kinds, not as Markdown or HTML text, except the page lines and the notification message.
- `subscriptions` (backend/bot.py:242-248) is not modelled. It joins the list `get_subscriptions` returns, and for a user holding the region-less row `ban_user` inserts, `"\n".join` meets `None` and raises a `TypeError`, so that user gets no list. `Bot.Shown`, which prints such a row as "None", models the page list of `send_region_page`, not this command.
- `callback_query.data` of `None` is not modelled. Callback data is always text here.
- PyText.Lower: maps only ASCII letters and the basic Cyrillic capitals (U+0400-U+042F, Ё included). The region names need no more. Python's full Unicode case table is not modelled.
- PyText.ParseInt: reads ASCII digits only. Python's `int()` also accepts the other Unicode decimal digits (for instance "٤٢" or "４２" read as 42). That difference matters only for hand-typed ids of `/ban`, `/unban` and `/is_banned`: the page numbers in callbacks come from `str()` and are ASCII.
- PyText.SplitOn: states only that there is at least one part. Its behaviour on the callbacks is given by `Bot.SplitOnMarker` and `Bot.CallbackRoundTrip`.
- LogFiles.SplitExt: follows POSIX `os.path.splitext` ('/' as the only separator). The Windows variant is not modelled.
- Store.RemoveSubscription: the contract speaks of the subscriptions, not of every row. A region-less banned row is never deleted, because SQL `=` never matches NULL; `Store.WithoutPair` states this row by row.
- Listener.PollAll: does not model an exception raised while processing a channel's text (backend/listener.py:160-161). The text is recorded as seen before processing, so such a failure only loses that text's alerts.
- Store.LastStatus: the contract says only that the status is that of some row with the key. That it is the newest such row is stated by `Store.LatestIndex`, `Store.LastStatusStep` and `Store.SaveThenLastStatus`.
- Listener.Expand: the contract bounds the targets only. Their exact shape, case by case, is `Listener.ExpansionShape`.
- Server.FileRow: the contract speaks of the regions only. The cells are stated, with the log, by `Server.SnapshotOf` and `Server.SnapshotAfterSave`.
- Reconnect.Delay: computes on unbounded integers. In `ws.js`, `2 ** attempts` is a float: it becomes `Infinity` from 1024 attempts on, and a zero `baseDelay` times `Infinity` is `NaN`, which `setTimeout` treats as 0. The model assumes fewer than 1024 attempts, or a positive base, where the float result equals the integer one up to the cap.
- Dashboard.UpdateRegion: models only the merge half of `updateRegionStatus`. The repaint (frontend/js/utils.js:46-63) is `Dashboard.FillColor`.

## Findings

| source | as written | input that shows it | evidently intended | confidence | as-written member | corrected member |
|---|---|---|---|---|---|---|
| backend/listener.py:58 | the wildcard region is compared with a mis-encoded form of "Россия", the same literal as at lines 98 and 100, so no canonical region name ever equals it | the classifier's failure answer "AC/Россия/ALL" with regions ["Москва", "Россия"]: four `AC` rows are saved for "Россия" itself and Moscow is not cleared | "Россия" is the nationwide wildcard: an `AC` for it clears every other region and records nothing for the wildcard | not executed | Listener.WrittenWildcardSavesNationwide | Listener.WildcardSettlesOthers |
| backend/db.py:180-186 | a ban lives only in the flags of the user's subscription rows, and `remove_subscription` deletes a row whatever its flag, so `unsubscribe` can delete every flagged row of a banned user and with them the ban that gates `/report` (backend/bot.py:272) | a user banned while following only "A", the table [(1, "A", banned)], sends `/unsubscribe all`: afterwards `is_banned(1)` is false | unsubscribing leaves a ban in force | not executed | Bot.UnsubscribeLiftsBan | Bot.UnsubscribeKeepingBan |
| backend/bot.py:72-78 | `data["original_user_id"]` is read before `if not data`, so a report the bot no longer holds raises a `TypeError`, and the "not found" reply is unreachable | an "approve_42" click with no stored reports, for instance after a restart | a missing report is answered "not found", and nothing else happens | not executed | Bot.ModerateAsWritten | Bot.Moderate |

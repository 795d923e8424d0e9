# BreakBread bot core in Dafny

This project models the sequential logic inside a Discord bot written in
JavaScript and proves properties of it. The bot's code is mostly glue around
the platform SDK; the modelled parts are the small pieces with real state or
real rules:

- the in-memory TTL cache (`CacheManager`) and the per-command adapter on top
  of it (`CommandCacheManager`);
- the dispatch rules of the command handler: server-wide and per-user
  cooldowns, the cache-key builder, the TTL table and the two caching gates;
- the yes/no poll ledger and the arithmetic of the `/poll` command;
- the anti-link and anti-tag settings (enable, add role, remove role,
  disable, load and save), which are line-for-line twins and share one class
  here, `RoleGate.GuildSettingsStore`, with the role-list separator as a
  parameter;
- the message-created event: tag and link enforcement, the AFK return and the
  AFK mention notices;
- the AFK command and its registry;
- the file-backed key/value store and the auto-role and welcome commands
  built on it;
- the hex colour, dog breed, rock-paper-scissors and ephemeral-flag helpers.

The rest of the repository is left out, including loaders, rendering, network
fetches and timers.

Modelling conventions:

- Time is always an explicit `now` parameter in place of `Date.now()`.
- Platform facts are plain values. These include role ids and positions,
  whether a member is manageable or moderatable, channel kinds, and API
  responses.
- JavaScript values that flow through the store and the reply options are
  one datatype, `JsValues.JsValue`, with JavaScript truthiness.
- A JavaScript `Map` or `Set`, whose iteration order matters, is an
  `OrderedMaps.OMap`: the keys in insertion order plus a table.
- A role `Set` is a sequence without repetitions.
- Objects whose fields the source updates in place are Dafny classes:
  `CacheManager`, `CommandCacheManager`, `CommandHandler`, `PollManager`,
  `GuildSettingsStore`, `AfkRegistry`, `Database` and `BreedList`. Their
  methods are proved against specification functions.
- Where a `.forEach` or `for … of` loop mutates state, the model has a loop
  with invariants.

## Model

| member | source | states |
|---|---|---|
| CacheStore.OrDefault | src/utils/cacheManager.js:42 | `x \|\| d`: a missing or zero option gives the fallback, any other value is kept |
| CacheStore.Configure | src/utils/cacheManager.js:12-16 | the constructor's options fall back to 500 entries, 30 minutes and 5 minutes when missing or 0; all three are positive iff the given ones are not negative |
| CacheStore.ExpiredKeys | src/utils/cacheManager.js:133-138 | a key is expired at `now` iff it is stored and its `expiresAt <= now` |
| CacheStore.Live | src/utils/cacheManager.js:77 | an entry is readable strictly before its `expiresAt`; `expiresAt <= now` is expired |
| CacheStore.Hit | src/utils/cacheManager.js:68-85 | `get` and `has` find the key and its entry is live |
| CacheStore.Oldest | src/utils/cacheManager.js:152-164 | the key `getOldestKey` picks is one of the stored keys |
| CacheStore.OldestIsMinimum | src/utils/cacheManager.js:152-164 | there is an oldest key iff the table is non-empty, and no entry has a smaller `createdAt` |
| CacheStore.OldestFirstAmongTies | src/utils/cacheManager.js:157 | the strict `<` makes the first key in iteration order win a tie |
| CacheStore.Sweep | src/utils/cacheManager.js:129-146 | the cleanup loop removes exactly the expired keys, keeps the order of the rest and counts the removed entries |
| CacheStore.SweepComplete | src/utils/cacheManager.js:133-138 | a pass over every key reaches every expired key |
| CacheStore.Stored | src/utils/cacheManager.js:41-61 | the table after `set` keeps the table invariant |
| CacheStore.Evicted | src/utils/cacheManager.js:46-51 | the table `set` writes into: every entry left is an unchanged entry of the old table, a present key evicts nothing, and at most one entry is removed |
| CacheStore.StoredThenRead | src/utils/cacheManager.js:53-57 | after `set` the key holds the new entry with `expiresAt = now + ttl`, and a read hits iff it happens before that time |
| CacheStore.StoredOverwrite | src/utils/cacheManager.js:46 | setting a present key never evicts and keeps the key order and every other entry |
| CacheStore.StoredEvictsOldest | src/utils/cacheManager.js:46-51 | a new key in a full table removes exactly the oldest entry, unless that key is the empty string |
| CacheStore.StoredWithinCapacity | src/utils/cacheManager.js:46-59 | with `maxSize >= 1`, `set` never takes the size over `maxSize` |
| CacheStore.CacheManager.constructor | src/utils/cacheManager.js:10-27 | an empty store with zero counters and the configured options |
| CacheStore.CacheManager.Set | src/utils/cacheManager.js:41-61 | the store becomes `Stored(...)` with the option TTL or the default; the counters are unchanged; the result is true |
| CacheStore.CacheManager.Get | src/utils/cacheManager.js:68-86 | a live entry returns its value and counts one hit; otherwise the result is null, one miss is counted and an expired entry is deleted |
| CacheStore.CacheManager.Has | src/utils/cacheManager.js:93-105 | same visibility rule and lazy deletion as `get`, with the counters untouched |
| CacheStore.CacheManager.Delete | src/utils/cacheManager.js:111-115 | the result says whether the key was present; the key is gone afterwards |
| CacheStore.CacheManager.Clear | src/utils/cacheManager.js:120-124 | the store is empty and its size is 0; the counters are kept |
| CacheStore.CacheManager.Cleanup | src/utils/cacheManager.js:129-146 | removes exactly the expired entries and returns how many were removed |
| CacheStore.CacheManager.GetOldestKey | src/utils/cacheManager.js:152-164 | the loop returns the `Oldest` key |
| CommandCache.FullKey | src/utils/commandCacheManager.js:110-112 | the full key is the command's prefix followed by the key |
| CommandCache.CommandPrefix | src/utils/commandCacheManager.js:82 | `cmd:<name>:` |
| CommandCache.FullKeyInjective | src/utils/commandCacheManager.js:110-112 | for command names without `:`, distinct (command, key) pairs give distinct full keys |
| CommandCache.FullKeyUnderPrefix | src/utils/commandCacheManager.js:81-94 | a full key carries a command's prefix iff it belongs to that command |
| CommandCache.Tracked | src/utils/commandCacheManager.js:119-135 | the statistics after one tracked lookup keep the table invariant |
| CommandCache.TrackedCountsOne | src/utils/commandCacheManager.js:119-135 | one lookup adds exactly one hit or one miss to that command, starting from zero counts on first use, and no other command changes |
| CommandCache.PrefixedAmong | src/utils/commandCacheManager.js:85-90 | the keys scanned that start with the prefix |
| CommandCache.Rows | src/utils/commandCacheManager.js:141-153 | one row per command, with total = hits + misses |
| CommandCache.InsertByTotal | src/utils/commandCacheManager.js:154 | inserting a row keeps the order by total, descending, and the rows as a multiset |
| CommandCache.SortByTotal | src/utils/commandCacheManager.js:154 | the rows come out ordered by total, descending, and are a permutation of the input |
| CommandCache.CommandCacheManager.constructor | src/utils/commandCacheManager.js:10-19 | caching on, no statistics, the shared store |
| CommandCache.CommandCacheManager.SetCacheEnabled | src/utils/commandCacheManager.js:25-28 | stores and returns the truthiness of the argument |
| CommandCache.CommandCacheManager.GetCommandCache | src/utils/commandCacheManager.js:36-49 | when disabled: null, with nothing touched; when enabled: the store's `get` under the full key, plus one hit iff the value is truthy, else one miss |
| CommandCache.CommandCacheManager.SetCommandCache | src/utils/commandCacheManager.js:56-62 | when disabled: false, with the store unchanged; when enabled: the store's `set` under the full key, and true |
| CommandCache.CommandCacheManager.HasCommandCache | src/utils/commandCacheManager.js:69-74 | true iff enabled and the full key is live; statistics are never changed |
| CommandCache.CommandCacheManager.ClearCommandCache | src/utils/commandCacheManager.js:81-94 | deletes exactly the keys under `cmd:<name>:`, whatever the switch, and returns their count |
| CommandCache.CommandCacheManager.TrackCommandStats | src/utils/commandCacheManager.js:119-135 | the statistics become `Tracked(...)` |
| CommandCache.CommandCacheManager.LogCommandPerformance | src/utils/commandCacheManager.js:140-154 | one row per tracked command, with total = hits + misses, ordered by total, descending |
| Dispatch.TypedGet | src/handlers/commandHandler.js:437-460 | a typed getter gives null for a missing option and a value only for an option of its own type |
| Dispatch.ProbeOnlyStrings | src/handlers/commandHandler.js:437-470 | `getString` is tried first and throws on an option of any other type, which ends the pass; so an option contributes a fragment iff it is a string option, and the fragment is its value |
| Dispatch.KeyHead | src/handlers/commandHandler.js:423-432 | the key starts with `base`, plus `:<subcommand>` when there is one |
| Dispatch.Probe | src/handlers/commandHandler.js:437-476 | one pass of the option loop: the getters in the order string, number, integer, boolean, then user for `user`; the first non-null value gives `:<name>=<value>`, a throw ends the pass with nothing |
| Dispatch.CacheKey | src/handlers/commandHandler.js:423-482 | what `buildCacheKey` returns: the key head followed by each allow-listed option's fragment, in allow-list order |
| Dispatch.BuildCacheKey | src/handlers/commandHandler.js:423-482 | the loop over the allow-list builds `CacheKey`, which starts with `base` |
| Dispatch.FragmentsByStrings | src/handlers/commandHandler.js:434-478 | the fragments depend only on the string values of the allow-listed names |
| Dispatch.KeyIgnoresOtherOptions | src/handlers/commandHandler.js:437 | two invocations with the same subcommand and the same allow-listed string options get the same key |
| Dispatch.HexKeyIsBase | src/handlers/commandHandler.js:437 | every `hex` invocation gets the key `base` |
| Dispatch.LooksLikeError | src/handlers/commandHandler.js:269-272 | a falsy content is not an error; a string content is an error iff it mentions `error`, `Error` or ❌ |
| Dispatch.GetEphemeralFlag | src/handlers/commandHandler.js:489-494 | a cached string reply is replayed as ephemeral iff it mentions `error`, `Error` or ❌ |
| Dispatch.LookupAllowed | src/handlers/commandHandler.js:358-363 | the lookup gate: a cacheable command, `neverCache` not `true`, and no subcommand |
| Dispatch.WriteAllowed | src/handlers/commandHandler.js:269-281 | the write gate: a cacheable command with falsy `neverCache` and a reply whose content does not look like an error |
| Dispatch.NeverCacheGatesDisagree | src/handlers/commandHandler.js:360-361 | the lookup gate tests `neverCache === true` and the write gate tests its truthiness, so `neverCache: 1` allows lookups but not writes |
| Dispatch.ErrorRepliesNotCached | src/handlers/commandHandler.js:269-285 | a reply whose content mentions an error is never written to the cache |
| Dispatch.TtlForCommand | src/handlers/commandHandler.js:499-518 | the per-command TTL lies between 30 minutes and 7 days; any other command gets 1 hour |
| Dispatch.TtlOverridesStoreDefault | src/handlers/commandHandler.js:499-518 | no TTL is 0, so the store never substitutes its own default |
| Dispatch.WhoisLookupNeverMatchesWrite | src/handlers/commandHandler.js:371-373 | as written, the `whois` lookup key never equals the key its reply was stored under |
| Dispatch.WhoisReplyNeverServed | src/handlers/commandHandler.js:270-285 | as written, storing a `whois` reply adds nothing a later `whois` lookup can find: a lookup that hits after the write hits the same entry it would have hit before |
| Dispatch.CacheKeyFor | src/handlers/commandHandler.js:367-373 | the lookup key: the built key for every command but `whois`, and a longer key, the built key plus `:<user id>`, for `whois` |
| Dispatch.CacheKeyForRoundTrip | src/handlers/commandHandler.js:306-310 | corrected: if the write path also used the lookup key, a stored reply would be found again until it expires |
| Dispatch.WhoisKeysPerUser | src/handlers/commandHandler.js:371-373 | two users' `whois` lookups use different keys |
| Dispatch.CooldownSeconds | src/handlers/commandHandler.js:167-170 | the spam-prone table's entry, else the declared cooldown if non-zero, else 3 seconds |
| Dispatch.ServerWide | src/handlers/commandHandler.js:136 | the server-wide check applies iff the invocation is in a guild and the command is in the server-wide table |
| Dispatch.Decide | src/handlers/commandHandler.js:117-208 | an invocation is ignored iff it is not a known slash command, changing nothing; a server-wide block only happens for server-wide invocations; blocks report a positive remaining time, a user block says whether the command is spam-prone; an admitted use stamps the user, and for server-wide commands the guild, with `now` |
| Dispatch.FirstUseAdmitted | src/handlers/commandHandler.js:136-208 | a user's first use of a command, with no server-wide record, is admitted and stamped with `now` |
| Dispatch.RetryWithinCooldownBlocked | src/handlers/commandHandler.js:182-186 | a second use by the same user before the cooldown ends is not admitted |
| Dispatch.ServerCooldownBlocksEveryone | src/handlers/commandHandler.js:136-164 | after an admitted purge, ban or kick at a non-zero time, anyone in that guild is blocked until the server cooldown ends |
| Dispatch.NoServerCooldownOutsideList | src/handlers/commandHandler.js:136-139 | outside a guild or for other commands there is no server-wide block and the server table is untouched |
| Dispatch.BlockedKeepsTimestamps | src/handlers/commandHandler.js:182-208 | a blocked invocation leaves every user timestamp as it was |
| Dispatch.AdmittedAfterCooldown | src/handlers/commandHandler.js:136-208 | once both cooldowns have run out the user is admitted again |
| Dispatch.CommandHandler.constructor | src/handlers/commandHandler.js:55-61 | empty cooldown tables |
| Dispatch.CommandHandler.HandleCommand | src/handlers/commandHandler.js:117-208 | the decision and the new cooldown tables are those of `Decide` |
| Dispatch.CommandHandler.TryGetFromCache | src/handlers/commandHandler.js:350-373 | no lookup, and nothing changes, for uncacheable commands, `neverCache === true`, a subcommand or caching off; otherwise one lookup under the `whois`-adjusted key: a hit iff a live truthy value is stored there, an expired or missing entry is dropped and counted as a miss, a live one counted as a hit, and the command's stats become `Tracked` of the old ones |
| Dispatch.CommandHandler.OnReply | src/handlers/commandHandler.js:263-285 | a reply is cached iff the write gate allows it and caching is on, under the bare `buildCacheKey` key (no `whois` user suffix) with the command's TTL; otherwise the store is unchanged; the hit and miss counters never change |
| Polls.NewPoll | src/utils/pollManager.js:13-27 | a fresh poll with empty yes and no sets and the given question and end time |
| Polls.ValidChoice | src/utils/pollManager.js:35 | the ledger accepts only `yes` and `no` |
| Polls.VoteOn | src/utils/pollManager.js:37-42 | the voter ends up on the chosen side only; no other voter moves; a consistent poll stays consistent |
| Polls.ResultsOf | src/utils/pollManager.js:50-60 | yes and no are the set sizes, and total = yes + no |
| Polls.TotalCountsVoters | src/utils/pollManager.js:50-60 | the total is the number of distinct voters |
| Polls.VoteIdempotent | src/utils/pollManager.js:37-47 | repeating a vote changes nothing |
| Polls.VoteSwitch | src/utils/pollManager.js:37-47 | switching from yes to no moves exactly one count and keeps the total |
| Polls.FirstVoteCounts | src/utils/pollManager.js:37-47 | a first vote adds one to the total |
| Polls.ConsistentAfterRemoval | src/utils/pollManager.js:68-82 | removing polls keeps every remaining poll consistent |
| Polls.DueAmong | src/utils/pollManager.js:70-78 | every reported poll is in the ledger, is due and carries its results |
| Polls.DueIds | src/utils/pollManager.js:72 | a poll is due iff its end time is at most `now` |
| Polls.DueAmongReportsEach | src/utils/pollManager.js:70-78 | every due poll is reported, once |
| Polls.PollManager.constructor | src/utils/pollManager.js:9-11 | an empty ledger |
| Polls.PollManager.CreatePoll | src/utils/pollManager.js:13-27 | stores a fresh poll under the message id, replacing any earlier one, and returns it |
| Polls.PollManager.GetPoll | src/utils/pollManager.js:29-31 | the stored poll, or none |
| Polls.PollManager.Vote | src/utils/pollManager.js:33-47 | null iff the poll is unknown or the choice is not yes or no, with nothing changed; otherwise the poll becomes `VoteOn(...)` and the tally is its set sizes |
| Polls.PollManager.GetResults | src/utils/pollManager.js:50-60 | null iff the poll is unknown; otherwise the yes and no counts and the question of the stored poll (`ResultsOf`), with total = yes + no = distinct voters |
| Polls.PollManager.EndPoll | src/utils/pollManager.js:62-66 | returns the poll's results and removes the poll |
| Polls.PollManager.GetActivePollsToEnd | src/utils/pollManager.js:68-82 | removes exactly the due polls, keeps the others, and reports the due ones in iteration order |
| Polls.PollDuration | src/commands/utility/poll.js:32-35 | `(days·24 + hours)` hours in ms, with days defaulting to 1 and hours to 0 |
| Polls.PollDurationBounds | src/commands/utility/poll.js:14-25 | within the declared option ranges a poll runs 1 day to 6 days 23 hours |
| Polls.PollEndTime | src/commands/utility/poll.js:36 | the end time is `now` plus the duration |
| Polls.ChoiceFromCustomId | src/commands/utility/poll.js:88 | no choice iff the id has no `_`; a choice never contains `_` |
| Polls.ChoiceRoundTrip | src/commands/utility/poll.js:88 | `prefix_choice` with an underscore-free prefix and choice gives back the choice |
| Polls.HandleVoteClick | src/commands/utility/poll.js:84-103 | non-buttons are ignored; a refused vote reports that the poll ended and changes nothing; otherwise the poll becomes `VoteOn` of the old one for the parsed choice, and the tally shown is that of the new poll, which counts the voter |
| Polls.FinalTotalVotes | src/commands/utility/poll.js:119 | total = yes + no |
| Polls.FinalTotalIsVoters | src/commands/utility/poll.js:116-121 | the final total is the number of distinct voters |
| RoleGate.Dedup | src/commands/moderation/antilink.js:28 | `new Set(array)`: no repetitions and the same elements |
| RoleGate.DedupNoDup | src/commands/moderation/antilink.js:28 | an array without repetitions survives the set unchanged |
| RoleGate.FromRecord | src/commands/moderation/antilink.js:26-30 | a stored guild loads with its flag, its roles as a set and `timeout \|\| 0` |
| RoleGate.Blank | src/commands/moderation/antilink.js:16 | `!content \|\| content.trim() === ''`: the file holds only white space |
| RoleGate.ToRecord | src/commands/moderation/antilink.js:61-65 | a guild is saved with its flag, its roles as an array and its timeout |
| RoleGate.RecordRoundTrip | src/commands/moderation/antilink.js:25-31 | saving a guild and loading it back gives the same settings |
| RoleGate.Converted | src/commands/moderation/antilink.js:25-31 | every stored guild, and only those, loads as `FromRecord` of its record |
| RoleGate.LoadEntries | src/commands/moderation/antilink.js:25-31 | the loaded table keeps every role list free of repetitions |
| RoleGate.Serialize | src/commands/moderation/antilink.js:59-66 | the written object has every guild, in table order, as `ToRecord` |
| RoleGate.SaveLoadRoundTrip | src/commands/moderation/antilink.js:22-66 | saving then loading into a fresh table reproduces the table, order included |
| RoleGate.FormatRolesList | src/commands/moderation/antilink.js:78-82 | the empty set gives the empty string; one role gives its mention |
| RoleGate.Mentions | src/commands/moderation/antilink.js:80 | `<@&id>` for each role, in order |
| RoleGate.FormatRolesListSnoc | src/commands/moderation/antilink.js:79-81 | one more role appends the separator and its mention |
| RoleGate.GuildSettingsStore.constructor | src/commands/moderation/antilink.js:6 | an empty table with nothing saved |
| RoleGate.GuildSettingsStore.Lookup | src/commands/moderation/antilink.js:6 | the stored settings, or none |
| RoleGate.GuildSettingsStore.Load | src/commands/moderation/antilink.js:10-47 | a missing, blank or unparsable file loads nothing, and an unparsable one is backed up; a parsed file sets each guild in file order |
| RoleGate.GuildSettingsStore.Save | src/commands/moderation/antilink.js:50-72 | writes `Serialize(guilds)` |
| RoleGate.GuildSettingsStore.Enable | src/commands/moderation/antilinkEnable.js:21-47 | enabled, roles = previous roles plus the new one, timeout = given or 0; then saved |
| RoleGate.GuildSettingsStore.AddRole | src/commands/moderation/antilinkAddRole.js:15-62 | refused when absent or disabled, or when the role is already allowed, with nothing changed; otherwise exactly that role is added and the settings saved |
| RoleGate.GuildSettingsStore.RemoveRole | src/commands/moderation/antilinkRemoveRole.js:15-80 | refused when absent or disabled, when the role is not allowed, or when it is the last role; otherwise exactly that role is removed and the settings saved |
| RoleGate.GuildSettingsStore.Disable | src/commands/moderation/antilinkDisabler.js:10-37 | refused when absent or disabled; otherwise disabled, with roles and timeout kept, and saved |
| RoleGate.EnableAllows | src/commands/moderation/antilinkEnable.js:27-44 | after enable, holders of the new role and of every earlier allowed role pass the message check |
| RoleGate.EnabledRefusesOthers | src/events/messageCreate.js:102-112 | while enabled, a member without an allowed role is refused |
| RoleGate.RemoveKeepsOne | src/commands/moderation/antilinkRemoveRole.js:59-80 | a successful removal leaves at least one role, drops only the removed one and keeps the rest |
| RoleGate.DisabledAllowsAll | src/events/messageCreate.js:102-112 | a disabled guild lets everyone through |
| RoleGate.IsAllowed | src/events/messageCreate.js:102-123 | everyone is allowed unless the guild's protection is on, and then exactly the holders of an allowed role |
| Afk.ReasonOrDefault | src/commands/utility/afk.js:55 | the given reason if non-empty, else `AFK` |
| Afk.CurrentNick | src/commands/utility/afk.js:70 | the nickname if non-empty, else the username |
| Afk.AfkNickname | src/commands/utility/afk.js:71-74 | unchanged iff the name ends with `(AFK)`; otherwise name + ` (AFK)` cut to 32 characters, a prefix of the full form |
| Afk.StripAfkSuffix | src/events/messageCreate.js:270 | removes one trailing ` (AFK)` and nothing else |
| Afk.ReturnNickname | src/events/messageCreate.js:268-271 | nothing changes unless the name ends with `(AFK)`; the name is reset iff it is exactly ` (AFK)`; otherwise the stripped name, never empty |
| Afk.AfkNicknameRestored | src/commands/utility/afk.js:74 | a name of at most 26 characters comes back exactly after going AFK and returning |
| Afk.LongNicknameKeepsCutSuffix | src/commands/utility/afk.js:74 | a name of 27 to 31 characters gets a cut suffix that the return strip does not remove |
| Afk.AfkRegistry.constructor | src/commands/utility/afk.js:10 | an empty registry with nothing saved |
| Afk.AfkRegistry.Lookup | src/events/messageCreate.js:289-290 | the stored record, or none |
| Afk.AfkRegistry.Load | src/commands/utility/afk.js:21-25 | each file entry is set in file order |
| Afk.AfkRegistry.Save | src/commands/utility/afk.js:33-40 | the written object has the map's entries |
| Afk.AfkRegistry.SetAfk | src/commands/utility/afk.js:55-74 | the user's record is replaced by (reason or `AFK`, now) and saved; the nickname changes only for a manageable member |
| Afk.AfkRegistry.ClearAfk | src/events/messageCreate.js:258-263 | the author's record is removed, and the registry saved iff there was one |
| Afk.SaveLoadRoundTrip | src/commands/utility/afk.js:21-37 | saving and loading back reproduces the registry, order included |
| Afk.SetAfkOverwrites | src/commands/utility/afk.js:60-63 | going AFK twice keeps only the later record and the user's place |
| MessageEvents.Plural | src/events/messageCreate.js:25-31 | the unit takes an `s` iff the number is not 1 |
| MessageEvents.UrlAt | src/events/messageCreate.js:95-99 | a link starts at a position: `http://` or `https://` in any letter case, followed by a character that is not white space |
| MessageEvents.ScanForUrl | src/events/messageCreate.js:97-98 | the regular expression search: every start position from the given one on is tried |
| MessageEvents.HasRestrictedTag | src/events/messageCreate.js:132 | the content contains `@everyone` or `@here` |
| MessageEvents.TagBlocked | src/events/messageCreate.js:129-136 | a non-bot guild message with a restricted tag from a member the anti-tag settings do not allow |
| MessageEvents.LinkBlocked | src/events/messageCreate.js:195-199 | a non-bot guild message with a link from a member the anti-link settings do not allow |
| MessageEvents.NestedFloor | src/events/messageCreate.js:22-30 | the nested floors of minutes, hours and days equal direct division |
| MessageEvents.FormatTimeDifference | src/events/messageCreate.js:21-33 | under a minute gives `less than a minute`, then whole minutes under an hour, whole hours under a day, else whole days |
| MessageEvents.ScanFindsUrl | src/events/messageCreate.js:95-99 | scanning from a position succeeds iff a link starts at or after it |
| MessageEvents.ContainsUrl | src/events/messageCreate.js:95-99 | true iff `http://` or `https://`, in any case, followed by a non-whitespace character, occurs somewhere |
| MessageEvents.Enforcement | src/events/messageCreate.js:138-184 | delete first, then a DM warning, then the timeout steps |
| MessageEvents.TimeoutOnlyWhenConfigured | src/events/messageCreate.js:162-167 | a timeout happens iff the settings' timeout is positive and the member is moderatable, and it lasts timeout·60000 ms |
| MessageEvents.ReturnActions | src/events/messageCreate.js:266-283 | ends with the welcome back; a rename comes first iff the member is manageable and the name ends with `(AFK)` |
| MessageEvents.MentionNotices | src/events/messageCreate.js:287-299 | never more notices than mentioned users |
| MessageEvents.NoticesDistinct | src/events/messageCreate.js:287-299 | the mentioned users form a collection keyed by id, so no two notices are for the same user |
| MessageEvents.NoticesOnlyForAfk | src/events/messageCreate.js:289-295 | every notice is for a mentioned AFK user, with that user's reason and time |
| MessageEvents.NoticeForEveryAfkMention | src/events/messageCreate.js:288-297 | every mentioned AFK user gets a notice |
| MessageEvents.GuildSettingsFor | src/events/messageCreate.js:102-104 | no settings outside a guild; otherwise the guild's stored settings |
| MessageEvents.NoticeMentions | src/events/messageCreate.js:287-299 | the mention loop produces `MentionNotices` |
| MessageEvents.HandleMessage | src/events/messageCreate.js:127-299 | bots are ignored; a blocked tag is enforced before the link check and stops processing; then a blocked link; otherwise the author's AFK record is cleared and the registry saved iff the author was away, with the return actions, and the mention notices follow |
| Storage.Read | src/utils/database.js:44 | the stored value, or undefined |
| Storage.Written | src/utils/database.js:59-66 | a write leaves the file holding the data |
| Storage.InitialData | src/utils/database.js:23-33 | a parsed file replaces the data; otherwise the data stays |
| Storage.LoadOk | src/utils/database.js:18-40 | the load every access starts with succeeds iff the store is loaded, or its file parses, or it is missing and can be created |
| Storage.LoadedData | src/utils/database.js:18-40 | the memory after that load: unchanged when already loaded or when the load fails, else the parsed file or, for a missing file, the current data |
| Storage.LoadedDisk | src/utils/database.js:18-40 | the file after that load: a first successful load leaves it holding exactly the loaded data; otherwise (already loaded, or a failed load, including a failed creation) it is unchanged |
| Storage.WriteThenLoad | src/utils/database.js:24-25 | loading the written file gives back what was written |
| Storage.Database.constructor | src/utils/database.js:12-16 | empty and not yet loaded; whether writes to its file succeed is fixed at creation |
| Storage.Database.Save | src/utils/database.js:59-66 | succeeds iff the file can be written, and then the file holds the data; a failed write rethrows, leaving the file as it was |
| Storage.Database.Init | src/utils/database.js:18-40 | succeeds iff the file parses or is missing and can be created; a missing file is created from the current data; a parsed file replaces the data; a failure (including a failed creation) changes nothing and leaves the store unloaded |
| Storage.Database.Get | src/utils/database.js:42-45 | succeeds iff the load does (`LoadOk`); memory and file become the loaded ones (a missing file is created) and the key is read from them; a failed load throws and changes nothing |
| Storage.Database.Set | src/utils/database.js:47-51 | succeeds iff the load and the write do; after a successful load the data is the loaded data with the key set and every other key keeps its value, and the file holds it iff the write succeeds (a failed write rethrows with memory already changed); a failed load throws and changes nothing |
| Storage.Database.Delete | src/utils/database.js:53-57 | succeeds iff the load and the write do; after a successful load the data is the loaded data without the key, and the file holds it iff the write succeeds (a failed write rethrows with the key already gone from memory); a failed load throws and changes nothing |
| AutoRole.EnableReply | src/commands/admin/autorole.js:37-118 | the checks in order: missing role, `@everyone`, too high, managed, already configured, else enabled |
| AutoRole.EnabledOnlyAssignable | src/commands/admin/autorole.js:37-118 | a role is configured iff it is given, is not `@everyone`, is below the bot's highest role, is not managed, and is not the existing configured role |
| AutoRole.StatusReply | src/commands/admin/autorole.js:171-223 | disabled iff there is no record; an issue iff the recorded role is gone; otherwise enabled |
| AutoRole.RoleExists | src/commands/admin/autorole.js:103 | `guild.roles.cache.get(v)` finds a role: `v` is the id of one of the guild's roles |
| AutoRole.Enable | src/commands/admin/autorole.js:37-118 | the reply is `EnableReply` of the record read after loading, on a loaded store or on the first command after a restart; only a success writes `{roleId}` to memory and file; it fails iff the checks pass and the store cannot load (changing nothing) or the write fails (leaving `{roleId}` in memory but not in the file) |
| AutoRole.Disable | src/commands/admin/autorole.js:136-151 | fails iff the store cannot load (changing nothing) or there is a record and the write fails (the record already gone from memory, the file as loaded); otherwise not configured iff the loaded record is falsy, leaving the loaded state, else the record is deleted and the file written |
| AutoRole.Status | src/commands/admin/autorole.js:171-223 | fails iff the store cannot load; otherwise the reply is `StatusReply` of the loaded record; the store only goes through its load |
| AutoRole.EnableThenStatus | src/commands/admin/autorole.js:118 | after a successful enable, status reports enabled while the role exists |
| WelcomeSetup.EnableReply | src/commands/admin/welcome.js:36-100 | the checks in order: missing channel, not text, then already configured or disable first when a configured channel still exists, else enabled |
| WelcomeSetup.EnabledOnlyWhenFree | src/commands/admin/welcome.js:68-102 | a channel is stored iff it is a text channel and no configured channel still exists, so a stale one is overwritten |
| WelcomeSetup.StatusReply | src/commands/admin/welcome.js:155-205 | disabled iff no channel is recorded; an issue iff it is gone; otherwise enabled |
| WelcomeSetup.Configured | src/commands/admin/welcome.js:121 | `config && config.channelId`: a record that names a channel |
| WelcomeSetup.ChannelExists | src/commands/admin/welcome.js:70 | `guild.channels.cache.get(v)` finds a channel: `v` is the id of one of the guild's channels |
| WelcomeSetup.Enable | src/commands/admin/welcome.js:36-102 | the reply is `EnableReply` of the record read after loading, on a loaded store or on the first command after a restart; only a success writes `{channelId}` to memory and file; it fails iff the checks pass and the store cannot load (changing nothing) or the write fails (leaving `{channelId}` in memory but not in the file) |
| WelcomeSetup.Disable | src/commands/admin/welcome.js:119-138 | fails iff the store cannot load (changing nothing) or a channel is configured and the write fails (the record already gone from memory, the file as loaded); otherwise not configured iff the loaded record names no channel, leaving the loaded state, else the record is deleted and the file written |
| WelcomeSetup.Status | src/commands/admin/welcome.js:155-205 | fails iff the store cannot load; otherwise the reply is `StatusReply` of the loaded record; the store only goes through its load |
| HexColor.Normalize | src/commands/fun/hex.js:22-24 | `#` is put in front unless the code already starts with it |
| HexColor.ValidHex | src/commands/fun/hex.js:27-28 | `#` followed by exactly three or six hex digits in either case |
| HexColor.Expand | src/commands/fun/hex.js:41-43 | a three-digit code has each digit doubled; every accepted code ends up seven characters long |
| HexColor.Channel | src/commands/fun/hex.js:106-108 | a colour channel is between 0 and 255 |
| HexColor.ContrastingTextColor | src/commands/fun/hex.js:104-115 | black iff 299r + 587g + 114b > 127500, else white |
| HexColor.HexCommand | src/commands/fun/hex.js:22-54 | a preview iff `#` plus three or six hex digits after normalising; its code is seven long and the title shows it in upper case |
| HexColor.NormalizeIdempotent | src/commands/fun/hex.js:22-24 | normalising twice is normalising once |
| HexColor.ShortCodeChannels | src/commands/fun/hex.js:41-43 | each channel of an expanded short code is its digit times 17 |
| HexColor.UpperKeepsColour | src/commands/fun/hex.js:54 | the upper-cased title names the same colour |
| HexColor.HashOptional | src/commands/fun/hex.js:22-24 | a code with or without its `#` gives the same preview |
| DogBreeds.Split | src/commands/fun/dog.js:131 | at least one piece, none containing a space |
| DogBreeds.SplitJoin | src/commands/fun/dog.js:131 | joining the pieces with spaces gives the string back |
| DogBreeds.FormatHasNoSpace | src/commands/fun/dog.js:129-139 | the API path never contains a space, and a one-word breed is just lower-cased |
| DogBreeds.SubBreedPath | src/commands/fun/dog.js:133-135 | the entry `sub main` of lower-case, space-free names is sent as `main/sub` |
| DogBreeds.MainBreedPath | src/commands/fun/dog.js:138 | a main breed without sub-breeds is sent under its own name |
| DogBreeds.FormatBreedForApi | src/commands/fun/dog.js:129-137 | lower-cased; with two or more space-separated parts, the last part, `/`, then the others joined by `-` |
| DogBreeds.EntriesFor | src/commands/fun/dog.js:20-26 | a main breed alone when it has no sub-breeds, else one `sub main` per sub-breed, in order |
| DogBreeds.BreedEntries | src/commands/fun/dog.js:10-40 | the whole breed list: each main breed's entries, in table order |
| DogBreeds.EntriesFormatToTable | src/commands/fun/dog.js:19-27 | every list entry formats to `main` or `main/sub` of the API's table |
| DogBreeds.BreedList.constructor | src/commands/fun/dog.js:7 | an empty list |
| DogBreeds.BreedList.FetchBreeds | src/commands/fun/dog.js:10-32 | nothing when the list is filled or the response has no table; otherwise the table flattened in order |
| DogBreeds.Matching | src/commands/fun/dog.js:51-53 | never more breeds than listed |
| DogBreeds.MatchingMembers | src/commands/fun/dog.js:51-53 | a breed is kept iff it is listed and contains the query case-insensitively |
| DogBreeds.PresentAmongMembers | src/commands/fun/dog.js:56-57 | a popular breed is offered iff it is listed |
| DogBreeds.PresentAmong | src/commands/fun/dog.js:56-57 | the popular breeds present in the list, in their listed order, never more than the candidates |
| DogBreeds.Autocomplete | src/commands/fun/dog.js:47-61 | at most 25 choices: the first matches for a query, else the popular breeds present |
| DogBreeds.AutocompleteSound | src/commands/fun/dog.js:47-61 | every choice is listed, contains the query when there is one, and is popular when there is not |
| DogBreeds.AutocompleteComplete | src/commands/fun/dog.js:50-53 | with at most 25 matches, every listed breed containing the query is offered |
| DogBreeds.AutocompletePopular | src/commands/fun/dog.js:54-57 | with an empty query every listed popular breed is offered |
| DogBreeds.DogCacheKey | src/commands/fun/dog.js:86 | `dog:` plus the formatted breed when one is given, else `dog:random` |
| DogBreeds.CacheKeyIgnoresCase | src/commands/fun/dog.js:86 | breed names differing only in letter case share a cache entry |
| RockPaperScissors.BotChoice | src/commands/fun/rps.js:40-41 | the bot's move is one of the three moves |
| RockPaperScissors.Play | src/commands/fun/rps.js:44-55 | a tie iff both moves are equal |
| RockPaperScissors.PlayIsCyclic | src/commands/fun/rps.js:47-55 | the player wins iff their move is the next one after the bot's, cyclically; the bot wins in the reverse case |
| RockPaperScissors.SwapMoves | src/commands/fun/rps.js:44-55 | swapping the moves keeps a tie and turns a player win into a bot win |
| RockPaperScissors.EachMoveBalanced | src/commands/fun/rps.js:44-55 | each move beats exactly one bot move and loses to exactly one |
| EphemeralFlags.OrEphemeral | src/utils/ephemeralHelper.js:26 | `x \| 64` on 32 bits sets bit 6 and changes nothing else |
| EphemeralFlags.ToInt32Pattern | src/utils/ephemeralHelper.js:26 | the 32-bit pattern of the operand, which is the number itself when it already fits |
| EphemeralFlags.Signed | src/utils/ephemeralHelper.js:26 | the signed 32-bit reading of the pattern, equal to it modulo 2^32 |
| EphemeralFlags.WithEphemeral | src/utils/ephemeralHelper.js:25-26 | a signed 32-bit number with the ephemeral bit set |
| EphemeralFlags.ConvertEphemeralToFlags | src/utils/ephemeralHelper.js:15-30 | a missing object is returned as is; without `ephemeral: true` the copy equals the input; with it, `ephemeral` is gone, `flags` gains the bit and every other field is kept |
| EphemeralFlags.ConvertIdempotent | src/utils/ephemeralHelper.js:15-30 | converting a converted object changes nothing |
| EphemeralFlags.FlagBitsKept | src/utils/ephemeralHelper.js:25-26 | a non-negative 31-bit flag word keeps every flag bit and gains the ephemeral bit |
| EphemeralFlags.WithEphemeralIdempotent | src/utils/ephemeralHelper.js:25-26 | adding the flag twice is adding it once |
| OrderedMaps.PutAllRoundTrip | src/commands/utility/afk.js:23-24 | setting a map's entries in order into an empty map rebuilds that map |

## Left out

- Timers (`setInterval` cleanup, the cooldown stamp deletion described next, the poll collector's expiry, the poll cleanup interval): time is a parameter, and each timed action is an operation the caller invokes.
- Dispatch.CommandHandler.HandleCommand: the `setTimeout` that deletes a user's cooldown stamp when the cooldown ends (src/handlers/commandHandler.js:210-216) is not modelled; the stamp is kept and compared against the current time instead, which admits and blocks the same uses. Because those timers are never cancelled, a timer armed at one admission can delete the stamp of a later admission of the same user early; the model does not capture that.
- `getStats`, `getCommandStats` and `destroy`: reporting and timer teardown, with no effect on the modelled state.
- CacheStore.StoredEvictsOldest: stated for an oldest key other than `""`. The source's `if (oldestKey)` skips eviction for an empty-string key, so the capacity bound `StoredWithinCapacity` assumes no stored key is `""`.
- CacheStore.Configure: the options are integers; the source's numbers may be fractions or negative, and negative sizes are not given a meaning here.
- CommandCache.SortByTotal: the order among rows with equal totals is not stated; the row order is given as sorted and a permutation of the input.
- File and network I/O: reads, writes, `mkdir`, `JSON.parse` and the dog, cat and advice APIs. Each is a parameter holding its outcome (`DiskFile`, `DataFile`, `Option` of the parsed value). The store in src/utils/database.js rethrows a failed write, so its writes can fail in the model (`Database.writable`): `set` and `delete` then reject with memory already changed, and `init` on a missing file rejects leaving the store unloaded. The AFK and anti-link files only log a failed write; those failures are not modelled.
- Platform calls that can fail (delete, DM, timeout, `setNickname`, `reply`): the model returns the intended actions, in order, and does not model a failure part-way.
- MessageEvents.HandleMessage: the per-message `try`/`catch`, which only logs, is not modelled.
- Rendering of embeds and messages (titles, colours, footers, the `⚡` marker, the dog title's capitalisation, the poll percentages as fixed-point strings): presentation only.
- HexColor.ContrastingTextColor: floating point is replaced by the integer comparison 299r + 587g + 114b > 127500. The two agree except where rounding of the float product could flip an exact tie, which the integer form decides as white.
- Unicode: `toLowerCase`/`toUpperCase` are modelled on ASCII letters only; strings are sequences of characters, not UTF-16 code units, so `substring(0, 32)` counts characters.
- Regular expressions are replaced by their plain characterisations: URL detection, the hex pattern and the ` (AFK)` strip.
- JSON shapes other than the expected ones (a non-object file, a record whose `allowedRoles` is not an array, a non-array sub-breed list) are not modelled.
- DogBreeds: `prefetchDogImages` (src/commands/fun/dog.js:158-178) and the image cache read/write are not modelled beyond the cache key. Without a breed the prefetch stores the fetched image under `dog:prefetch:random:<0-4>` in the shared cache with a 30-minute TTL; with a breed, line 172 refers to a variable declared only inside the `if` block, and the resulting `ReferenceError` is swallowed, so nothing is stored.
- RockPaperScissors.BotChoice: the random draw is an index parameter.
- EphemeralFlags.ToInt32Pattern: numbers are integers, so fractions, NaN, infinities, numeric strings and objects as `flags` are not modelled; a non-number other than `true` counts as 0.
- The warn, ban, kick, purge, music and informational commands, the loaders, `interactionCreate`, `guildMemberAdd` and the components are not part of this model.

## Findings

| source | as written | input that shows it | evidently intended | confidence | as-written member | corrected member |
|---|---|---|---|---|---|---|
| src/handlers/commandHandler.js:371-373 | the `whois` lookup appends `:<user id>` to the key, but the reply overrides at lines 270 and 307 store the reply under the bare key | any `whois` invocation: it looks up `base:<id>` after its reply was stored under `base`, so it never hits | both paths use the same per-user key | high (not executed) | Dispatch.WhoisLookupNeverMatchesWrite | Dispatch.CacheKeyForRoundTrip |

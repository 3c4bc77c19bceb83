# asha-bot core, modelled in Dafny

asha-bot is a Discord bot. This project models the parts of it that decide
and keep state, with Discord itself taken as input:

- **Reaction roles** (`reactionroles.py`). A guild's configuration maps
  each role message either to trigger keys (emoji or buttons), each bound to
  a role with a mode (`normal`, `unique` or `exclusive`), or, for advanced
  menus, to categories of roles. The model covers:
  - the four activation handlers: button click, reaction added, reaction
    removed and menu selection;
  - the checks they make: the required-roles gate and the `max_roles` cap;
  - the mode rules;
  - the configuration commands that edit the map in place;
  - the cleanup pass;
  - the `custom_id` strings of the persistent components.
- **Leveling** (`leveling.py`):
  - the XP curve and the level-from-XP loop;
  - the admin setters;
  - the XP-rate settings;
  - level-up templates;
  - leaderboard paging;
  - level-role rewards;
  - the per-message XP award with its cooldown.
- **Moderation** (`moderation.py`):
  - the mute-duration parser;
  - the role-hierarchy guard;
  - the warnings and mute tables;
  - the periodic mute-expiry pass;
  - the purge bounds.
- **Storage, JSON branch** (`reactionroles_storage.py` and
  `leveling_storage.py`): in-memory nested maps with get, set and delete, and
  the XP leaderboard query.

Handlers that change state in place are classes over maps, with `modifies`
clauses and post-states stated in full:
- `ReactionRoles.ReactionRoles`;
- `Leveling.LevelingCog`;
- `Moderation.ModerationState`;
- the two storage classes.

Loops in the source are methods with loop invariants, each proved equal to a
specification function:
- the required-roles search;
- the `role_count` tally;
- the removal passes;
- the cleanup loops;
- the level loop.

The activation rules are pure functions, so their properties can be stated
as lemmas:
- `ResolveButton`;
- `ResolveReactionAdd`;
- `ResolveReactionRemove`;
- `ResolveMenu`.

Modelling conventions:
- **Activation results.** Each activation returns an `Outcome`. It is
  either `Rejected(reason)`, which leaves the member's roles unchanged, or
  `Applied(add, remove)`, which gives the member `(roles - remove) + add`.
  The source issues its removals before its additions.
- **Role snapshot.** The member's roles are the snapshot the handler starts
  with, because discord.py does not refresh `member.roles` after
  `add_roles` or `remove_roles`. A role counts as held when it still exists
  in the guild and the member has it.
- **Ids and keys.** Ids are integers. Trigger keys and category ids are
  strings.

Where the code and its evident intent part, the model follows the intent and
records the code as written under "## Findings". The one exception is
`mute`, which is modelled as written: `Moderation.MuteDecisionChecked` states
the intended order beside it. The intended rules used:
- The button cap and toggle act on the clicked button's role
  (`reactionroles.py:1737`). As written, they act on the variable the
  counting loop rebinds at `reactionroles.py:1769`.
- The reaction cap spares a member who already holds the target role, as the
  button cap does (`reactionroles.py:1773`).
- Cleanup counts the bindings of deleted messages among the removed roles.
- Cleanup keeps a found menu message that has a category. As written, the
  "remove empty messages" test (`reactionroles.py:1192`) deletes every menu
  message, since menus keep their roles inside `settings`.
- Two further defects are not copied:
  - `add_reaction_role` stores a bare role id and calls a save method that
    does not exist (`reactionroles.py:191-192`). The model stores the
    `{role_id, mode: normal}` binding every reader expects
    (`reactionroles.py:249`, `reactionroles.py:546`).
  - The exclusive branch of the menu callback reads `emoji` before binding
    it (`reactionroles.py:1916`). This raises on the first non-menu message
    it meets. The model clears every bound role of the guild, as the button
    path does (`reactionroles.py:1794-1808`).

## Model

| member | source | states |
|---|---|---|
| Text.ParseInt | moderation.py:150 | `int()` accepts only non-empty text, and reads a plain string of ASCII digits as its decimal value. |
| Text.SpaceAroundIgnored | moderation.py:150 | The whitespace `int()` strips (ASCII tab to carriage return, space, and the non-ASCII spaces `str.isspace()` accepts) does not change what it reads when placed before or after the text. |
| Text.UnderscoreBetweenDigits | moderation.py:150 | An underscore between digits is ignored: "1_0" reads as 10. |
| Text.UnderscoreDoubled | moderation.py:150 | Two underscores in a row are rejected: "1__0" is not an integer. |
| Text.UnderscoreLeading | moderation.py:150 | A leading underscore is rejected: "_1" is not an integer. |
| Text.UnderscoreTrailing | moderation.py:150 | A trailing underscore is rejected: "1_" is not an integer. |
| Text.ParseShowInt | moderation.py:150 | Reading back with `int()` what `str()` wrote gives the same integer. |
| Text.ShowIntInjective | leveling.py:1297-1301 | Distinct levels give distinct `str(level)` keys, so one level's template never answers for another. |
| LevelCurve.TotalXp | leveling.py:1126-1128 | The total XP for a level is 0 below level 0 and at least 100 from level 0 on. |
| LevelCurve.XpForLevel | leveling.py:1119-1124 | The XP for a level is 100 up to level 0, and for higher levels the gap between consecutive totals. |
| LevelCurve.XpForLevelClosedForm | leveling.py:1119-1124 | From level 1 each level costs 10·L + 45, ten more than the level before. |
| LevelCurve.TotalXpIncreasing | leveling.py:1126-1128 | Total XP strictly increases with the level from level 0. |
| LevelCurve.LevelSearchIsLevel | leveling.py:1130-1136 | The loop's search, started at any reached level, ends at the level whose threshold band contains the XP. |
| LevelCurve.LevelOfUnique | leveling.py:1130-1136 | At most one level has a threshold band containing a given XP. |
| LevelCurve.LevelForXp | leveling.py:1130-1136 | The level returned lies in the threshold band that contains the XP. |
| LevelCurve.LevelForXpSpec | leveling.py:1130-1136 | The computed level is exactly the level whose band contains the XP. It is 0 iff the XP is under 100, and the XP is below the next level's threshold. |
| LevelCurve.LevelForXpMonotone | leveling.py:1130-1136 | More XP never gives a lower level. |
| LevelCurve.LevelOfTotalXp | leveling.py:1126-1136 | For levels from 1, the level of a level's total XP is that level. |
| LevelCurve.LevelOfTotalXpZero | leveling.py:1126-1136 | The total XP of level 0 reads back as level 1. |
| LevelCurve.GetLevelFromXp | leveling.py:1130-1136 | The `while` loop terminates with the unique level whose band contains the XP. |
| Leveling.RateValidRange | leveling.py:414-431 | Under the invariant `level_xprate` keeps, the effective minimum is non-negative and at most the maximum. |
| Leveling.RandInt | leveling.py:1269 | `randint(lo, hi)` succeeds iff lo ≤ hi, with a result in [lo, hi]. |
| Leveling.RandIntCovers | leveling.py:1269 | Every value in the range is drawn by some draw. |
| Leveling.EmptyRangeBreaksRate | leveling.py:1267-1269 | An empty XP range is possible only when the rate invariant is broken. |
| Leveling.TotalPages | leveling.py:141-142 | At least one page. For n users, the smallest page count whose pages hold all n. |
| Leveling.LeaderboardPage | leveling.py:127-147 | No data iff there are no users. A page is shown iff it is in 1..total pages. The shown slice starts at (page−1)·10 and holds at most a page, and is full unless it is the last. |
| Leveling.EachRankOnOnePage | leveling.py:138-157 | Every rank appears on exactly one page, page ⌊rank/10⌋+1. |
| Leveling.LevelsToCheck | leveling.py:1143 | The levels checked are 1..level when assigning all below, else only the level itself. |
| Leveling.RewardRoles | leveling.py:1144-1151 | A role is awarded iff it rewards a checked level, exists, is not held, is below the bot's top role and is not an integration, default or booster role. |
| Leveling.LevelUpTemplate | leveling.py:1297-1301 | The template is the level's own, else the guild's "0" template, else the built-in default. |
| Leveling.LevelUpTemplateFallback | leveling.py:1297-1301 | All levels without their own template share the fallback, which is the "0" template when one is set. |
| Leveling.LevelingCog.LevelUpMessage | leveling.py:1297-1301 | A guild without templates gets the built-in default. Otherwise the level's own template is used, else the guild's "0" template. |
| Leveling.Diagnosed | leveling.py:1008-1012 | The correction keeps XP and timestamp and sets the level to the level of the XP. |
| Leveling.AwardKeepsLevelConsistent | leveling.py:1270-1274 | After a non-negative award, "raise the level only if higher" gives the level of the new total. |
| Leveling.LevelingCog.SetXp | leveling.py:202-226 | Negative XP is rejected with no change. Otherwise the record becomes (xp, level of xp, now), and every other record is unchanged. |
| Leveling.LevelingCog.AddXp | leveling.py:228-255 | The XP becomes max(0, old + delta), with the level recomputed and the timestamp kept. A level-up is reported iff the new level is higher. |
| Leveling.LevelingCog.SetLevel | leveling.py:258-281 | A negative level is rejected. Otherwise the XP becomes the level's total. The stored level agrees with the XP iff the level is at least 1; level 0 is later corrected to 1. |
| Leveling.LevelingCog.AddLevelRole | leveling.py:287-319 | A reward is set iff the level is at least 1 and the role is assignable; otherwise nothing changes. |
| Leveling.LevelingCog.RemoveLevelRole | leveling.py:324-350 | The reward is removed iff it exists. An emptied guild entry is deleted, and nothing else changes. |
| Leveling.LevelingCog.CheckLevelRoles | leveling.py:1138-1157 | The roles to add are the reward roles of the checked levels. Each exists, is not held and is assignable; at most one is added unless all levels below are assigned. |
| Leveling.LevelingCog.XpRate | leveling.py:400-458 | Missing settings get the defaults. Min, max and cooldown are checked and written in that order, and a rejection keeps the earlier writes. Nothing is changed iff nothing is given. An accepted update keeps 0 ≤ min ≤ max. |
| Leveling.LevelingCog.ToggleLeveling | leveling.py:582-596 | Only the guild's `enabled` flag changes, and leveling then reads as that flag. |
| Leveling.LevelingCog.OnMessage | leveling.py:1253-1278 | Bot, DM, system and empty messages, and disabled guilds, are ignored. Within the cooldown nothing changes. Otherwise the timestamp becomes now, an amount in [min, max] is added and the level is only ever raised. Other users are unchanged. |
| LevelingStore.SortByXp | leveling_storage.py:101 | The sort orders by non-increasing XP and is a permutation of its input. |
| LevelingStore.SliceLength | leveling_storage.py:102 | The length of Python's `[:limit]`, for negative limits as well. |
| LevelingStore.Leaderboard | leveling_storage.py:100-102 | Returns `[:limit]` many entries of the input, by non-increasing XP. |
| LevelingStore.LeaderboardKeepsTop | leveling_storage.py:100-102 | Every entry left out has no more XP than any entry returned. |
| LevelingStore.CollectRows | leveling_storage.py:101 | `items()` lists each user exactly once with its record. |
| LevelingStore.LevelingStorage.GetUserData | leveling_storage.py:79 | The record if present, else none. |
| LevelingStore.LevelingStorage.SetUserData | leveling_storage.py:89-91 | The user's record reads back, every other user is unchanged, and the guild entry is created if missing. |
| LevelingStore.LevelingStorage.DeleteUserData | leveling_storage.py:110-111 | The user's record is gone and every other record is unchanged. It is a no-op when absent. |
| LevelingStore.LevelingStorage.GetGuildLeaderboard | leveling_storage.py:93-102 | At most `limit` rows, ordered by non-increasing XP (missing XP counts as 0). Each row is tagged with its user id, and no user appears twice. Any user left out has no more XP than a row shown. |
| LevelingStore.LevelingStorage.GetSettings | leveling_storage.py:120 | The guild's settings, or an empty map. |
| LevelingStore.LevelingStorage.SetSettings | leveling_storage.py:129 | Replaces the guild's whole settings entry. |
| LevelingStore.LevelingStorage.GetRoles | leveling_storage.py:138 | The guild's roles entry, or an empty map. |
| LevelingStore.LevelingStorage.SetRoles | leveling_storage.py:147 | Replaces the guild's whole roles entry. |
| LevelingStore.LevelingStorage.GetMessages | leveling_storage.py:156 | The guild's messages entry, or an empty map. |
| LevelingStore.LevelingStorage.SetMessages | leveling_storage.py:165 | Replaces the guild's whole messages entry. |
| LevelingStore.LevelingStorage.GetBackground | leveling_storage.py:174 | The user's background, keyed by user only. |
| LevelingStore.LevelingStorage.SetBackground | leveling_storage.py:183 | The background reads back. |
| LevelingStore.LevelingStorage.DeleteBackground | leveling_storage.py:191-192 | The background is gone, and it is a no-op when absent. |
| ReactionStorage.ReactionRolesStorage.GetGuildData | reactionroles_storage.py:56 | The guild's map, or an empty map for an unknown guild. |
| ReactionStorage.ReactionRolesStorage.GetMessageData | reactionroles_storage.py:81 | The message document, or none when the guild or the message is unknown. |
| ReactionStorage.ReactionRolesStorage.SetGuildData | reactionroles_storage.py:71 | Replaces the whole guild map. |
| ReactionStorage.ReactionRolesStorage.SetMessageData | reactionroles_storage.py:92-94 | The document reads back, the guild map is created if absent, and every other (guild, message) entry is unchanged. |
| ReactionStorage.ReactionRolesStorage.DeleteMessageData | reactionroles_storage.py:103-104 | Removes only that message, and is a no-op when absent. |
| ReactionStorage.ReactionRolesStorage.DeleteGuildData | reactionroles_storage.py:112-113 | Removes the guild, and is a no-op when absent. |
| Moderation.UnitSeconds | moderation.py:152-159 | Exactly s, m, h and d are units. |
| Moderation.ParseDuration | moderation.py:148-165 | An empty string has no unit. A prefix that `int()` rejects is a format error. A result in seconds has a valid unit. |
| Moderation.DurationOfInteger | moderation.py:148-162 | Any text that `int()` reads as v, followed by a unit letter of either case, is v units. Any other last character is an invalid unit. |
| Moderation.SpaceAroundDuration | moderation.py:150 | Whitespace that `int()` strips, placed around the number (for example " 5m" or "5 m"), does not change the duration. |
| Moderation.DurationRoundTrip | moderation.py:149-159 | "⟨v⟩⟨unit⟩" parses to v × 1, 60, 3600 or 86400 seconds, either letter case. |
| Moderation.OtherUnitRejected | moderation.py:160-162 | Any other unit is rejected. |
| Moderation.HierarchyAllows | moderation.py:90 | Acting on an equal top role is never allowed. |
| Moderation.NoMutualModeration | moderation.py:90 | Two members can never both act on each other. |
| Moderation.BanOrKick | moderation.py:88-110 | Rejected iff the invoker's top role is not above the target's; done iff allowed and the call succeeds. |
| Moderation.Purge | moderation.py:341-354 | Purges iff 1 ≤ amount ≤ 100, deleting min(amount, available). |
| Moderation.AfterExpiry | moderation.py:29-45 | A pass keeps every guild key. It deletes a record iff the record expires, and keeps the others unchanged. |
| Moderation.ExpiryDeletesExactly | moderation.py:29-45 | A record is deleted iff its time has come, the guild and mute role are reachable and the member still holds the role. |
| Moderation.ExpiryIdempotent | moderation.py:29-45 | A second pass at the same time deletes nothing more. |
| Moderation.LaterPassRemovesMore | moderation.py:39-45 | A later pass keeps no record that an earlier one removed. |
| Moderation.ExpireGuild | moderation.py:39-45 | The inner loop keeps exactly the surviving records of one guild. |
| Moderation.ModerationState.Warn | moderation.py:240-270 | Rejected with no change unless the hierarchy allows. Otherwise exactly one warning is appended, the new list length is reported and other members are unchanged. |
| Moderation.ModerationState.ClearWarnings | moderation.py:324-336 | Rejected iff there are no warnings. Otherwise the list is emptied and its previous length reported. |
| Moderation.MuteDecision | moderation.py:140-204 | The hierarchy is checked, then the duration. The role is added iff both pass, the mute role is available and `add_roles` succeeds. The member is muted, at now + duration, iff moreover the unmute time is a valid `datetime`. |
| Moderation.MuteOverflowCounterexample | moderation.py:175-178 | As written, a 4000000-day mute adds the role and then overflows, so no record is stored. |
| Moderation.MuteDecisionChecked | moderation.py:140-204 | With the unmute time checked before `add_roles`, the role is added only together with a record. Otherwise the outcomes agree with `mute` whenever it mutes. |
| Moderation.ModerationState.Mute | moderation.py:140-204 | The outcome is that of `MuteDecision`. The record now + duration is stored, overwriting any earlier one, iff the member is muted. Otherwise, including after an overflow, the table is unchanged. |
| Moderation.ModerationState.Unmute | moderation.py:210-237 | Only that member's mute record is deleted, if present, and only when the role removal succeeds. |
| Moderation.ModerationState.CheckMuteExpiry | moderation.py:24-58 | The mute table becomes exactly the expiry pass of the old table. |
| ReactionConfig.NewSettings | reactionroles.py:136-145 | A new message has no gate, no cap, the given style and no categories. |
| ReactionConfig.Slug | reactionroles.py:1361 | A category id is the name lower-cased, with each space replaced by `_`, and of the same length. |
| ReactionConfig.SlugIdempotent | reactionroles.py:1361 | Slugging a category id changes nothing. |
| ReactionConfig.SlugHasNoSpaceOrUpper | reactionroles.py:1361 | A category id has no space and no upper-case letter. |
| ReactionResolve.ResolveButton | reactionroles.py:1730-1817 | An applied click adds at most the button's role, and only when unheld. It removes only held roles, never one it adds, and always toggles the button's role. |
| ReactionResolve.ResolveReactionAdd | reactionroles.py:470-585 | An applied reaction adds exactly the role bound to the key, which exists. It removes only held roles. |
| ReactionResolve.ResolveMenu | reactionroles.py:1868-1939 | An applied submission adds only selected, existing roles of the category that the member lacks. It removes only held roles. |
| ReactionResolve.ResolveReactionRemove | reactionroles.py:588-620 | Applies iff a non-bot reaction is removed from a bound key. The member then loses the bound role and nothing else. |
| ReactionResolve.MenuMaxValues | reactionroles.py:1832-1863 | A menu allows one choice when some role is unique, else one per listed role. |
| ReactionResolve.ButtonRejectedIff | reactionroles.py:1730-1778 | A click is rejected iff any of these holds: wrong guild, role gone, message unknown, gate closed or cap reached. A rejection changes nothing. |
| ReactionResolve.ButtonGateRejects | reactionroles.py:1747-1761 | With required roles of which none is held, the click is rejected and no role changes. |
| ReactionResolve.ButtonCapRejects | reactionroles.py:1764-1778 | With a cap, at least that many bound roles held and the target not held, the click is rejected. |
| ReactionResolve.ButtonCapSparesHeldTarget | reactionroles.py:1764-1778 | A held target is toggled off despite the cap, and a cap of 0 never blocks. |
| ReactionResolve.ButtonToggles | reactionroles.py:1811-1817 | A held target ends removed, an unheld one ends added. |
| ReactionResolve.NormalClicksRestore | reactionroles.py:1811-1817 | Two successive normal-mode clicks restore the member's roles. |
| ReactionResolve.ButtonUniqueEffect | reactionroles.py:1781-1792 | Unique mode removes every other bound role of the message. Roles not bound on the message are untouched. |
| ReactionResolve.ButtonExclusiveEffect | reactionroles.py:1794-1808 | Exclusive mode removes every other bound role of every message in the guild. Roles bound nowhere are untouched. |
| ReactionResolve.ReactionAddRejectedIff | reactionroles.py:470-585 | A reaction is rejected iff any of these holds: it is the bot's, the key is unbound, the gate is closed, the cap is reached or the role is gone. A rejection changes nothing; otherwise the role is added. |
| ReactionResolve.ReactionUniqueEffect | reactionroles.py:554-568 | Unique mode removes the roles of the message's other keys. Roles not bound on the message are untouched. |
| ReactionResolve.ReactionExclusiveEffect | reactionroles.py:569-579 | Exclusive mode removes the roles of every other key in the guild. Roles bound nowhere are untouched. |
| ReactionResolve.MenuSelectionEffect | reactionroles.py:1890-1939 | For each existing role of the category: selected and unheld ends held; unselected ends not held; selected and held stays unless an exclusive role was added. |
| ReactionResolve.MenuKeepsOtherRoles | reactionroles.py:1890-1939 | Without exclusive roles, a submission touches only the category's roles. |
| ReactionResolve.LastModeIsListed | reactionroles.py:1884 | The mode `role_data_map` keeps for a role is the mode of one of its entries. |
| ReactionResolve.MenuExclusiveClears | reactionroles.py:1898-1925 | Adding an exclusive menu role keeps it. It removes every other held role bound anywhere in the guild, on trigger keys or in menu categories. |
| ReactionResolve.MenuUniqueAddsAtMostOne | reactionroles.py:1863 | In a category with a unique role, a submission within `max_values` adds at most one role. |
| ReactionResolve.MenuSingleChoiceIff | reactionroles.py:1832-1863 | `max_values` is 1 iff some role is unique or there is exactly one role. |
| ReactionScan.HasRequiredRole | reactionroles.py:1747-1753 | The search loop finds a held required role iff the gate is open. |
| ReactionScan.CountBoundHeld | reactionroles.py:1766-1771 | `role_count` equals the number of the message's keys whose role is held. |
| ReactionScan.CollectMessageRemovals | reactionroles.py:1781-1790 | The unique pass collects exactly the held roles of the message's other bindings. |
| ReactionScan.CollectGuildRemovals | reactionroles.py:1794-1806 | The exclusive pass collects exactly the held roles of every binding in the guild but the target. |
| ReactionScan.CollectCategoryHeld | reactionroles.py:1903-1914 | Collects exactly the held roles of one category, less the selected role. |
| ReactionScan.CollectSettingsHeld | reactionroles.py:1903-1914 | Collects exactly the held roles of all categories of one menu, less the selected role. |
| ReactionScan.CollectMenuHeld | reactionroles.py:1901-1914 | Collects exactly the held menu roles of the guild, less the selected role. |
| ReactionEdits.WithRequiredRole | reactionroles.py:341-345 | Adds the role to the required roles unless present. It never introduces a duplicate. |
| ReactionEdits.AppendMenuRole | reactionroles.py:1462-1470 | Appends the role to one category and leaves everything else unchanged. |
| ReactionEdits.AppendMenuRoleKeepsUnique | reactionroles.py:1452-1470 | Appending a role no category lists keeps each role id in at most one category. |
| ReactionEdits.FirstIndexOf | reactionroles.py:1619-1623 | The first position of the role in a category, or none iff the category does not list it. |
| ReactionEdits.DropMenuRole | reactionroles.py:1617-1623 | Pops one entry of one category and leaves everything else unchanged. |
| ReactionEdits.DropMenuRoleUnlists | reactionroles.py:1617-1630 | Under the uniqueness invariant, popping the role's entry leaves it in no category and keeps the invariant. |
| ReactionEdits.RemoveCategoryKeepsUnique | reactionroles.py:1688 | Deleting a category keeps the invariant and unlists all its roles. |
| ReactionEdits.LiveTriggers | reactionroles.py:1168-1189 | Exactly the bindings whose role still exists, unchanged. |
| ReactionEdits.CleanedGuild | reactionroles.py:1148-1199 | Keeps exactly the found messages that still configure a role: a live binding, or a menu category. Each keeps only its live bindings. |
| ReactionEdits.CleanedGuildSound | reactionroles.py:1148-1199 | After cleanup: every binding's role exists; every kept message was found and still configures a role; every found menu message with a category is kept; every live binding of a found message is kept. |
| ReactionEdits.CleanedGuildIdempotent | reactionroles.py:1148-1199 | A second cleanup changes nothing. |
| ReactionRoles.ListedAnywhere | reactionroles.py:1452-1460 | The duplicate scan finds the role iff some category lists it. |
| ReactionRoles.FirstListed | reactionroles.py:1619-1623 | The inner scan returns the first index of the role. |
| ReactionRoles.FindListed | reactionroles.py:1617-1626 | Finds a listing category and index iff the role is listed somewhere. |
| ReactionRoles.CountEntries | reactionroles.py:1140-1145 | The initial counts are the number of messages and the number of bindings. |
| ReactionRoles.DropDeadBindings | reactionroles.py:1168-1189 | Leaves exactly the live bindings and counts the dropped ones. |
| ReactionRoles.DropMissing | reactionroles.py:1147-1189 | Deletes the unfound messages and the dead bindings. Removed plus remaining equals the initial count, for messages and for bindings. |
| ReactionRoles.DropEmpty | reactionroles.py:1190-1195 | Deletes exactly the messages that configure no role any more, counts them and keeps every binding. |
| ReactionRoles.PrunedThenEmptied | reactionroles.py:1147-1199 | The two passes together give exactly the cleaned guild. |
| ReactionRoles.MenuPass | reactionroles.py:1890-1931 | The loop over `role_data_map` computes exactly the added, deselected and exclusively cleared roles. |
| ReactionRoles.ReactionRoles.ClickButton | reactionroles.py:1730-1821 | The handler's outcome is `ResolveButton` on the guild's configuration. |
| ReactionRoles.ReactionRoles.ReactionAdded | reactionroles.py:470-585 | The handler's outcome is `ResolveReactionAdd` on the guild's configuration. |
| ReactionRoles.ReactionRoles.ReactionRemoved | reactionroles.py:588-620 | The handler's outcome is `ResolveReactionRemove` on the guild's configuration. |
| ReactionRoles.ReactionRoles.MenuSelected | reactionroles.py:1870-1939 | The handler's outcome is `ResolveMenu` on the guild's configuration. |
| ReactionRoles.ReactionRoles.CreateMessage | reactionroles.py:1306-1319 | Stores a fresh message with default settings, and no other message changes. |
| ReactionRoles.ReactionRoles.AddReactionRole | reactionroles.py:185-192 | Binds the key to the role in normal mode, creating the guild and message entries if missing. No other message changes. |
| ReactionRoles.ReactionRoles.ReactionSettings | reactionroles.py:325-347 | An unknown message is rejected with no change. Otherwise the cap is set if given and the role appended to the required roles if new; the invariant is kept. |
| ReactionRoles.ReactionRoles.AddCategory | reactionroles.py:1351-1374 | Rejects an unknown message, a non-menu or an existing category id. Otherwise it adds an empty category under the slug. Only that message changes. |
| ReactionRoles.ReactionRoles.AddMenuRole | reactionroles.py:1429-1470 | Rejects an unknown message, a non-menu, an unknown category, a role at or above the bot's, or a role listed in any category, in that order. Otherwise it appends the role. Each role id stays in at most one category. |
| ReactionRoles.ReactionRoles.RemoveMenuRole | reactionroles.py:1604-1630 | Rejects an unknown message, a non-menu or an unlisted role. Otherwise it pops the role's first entry in its category, after which no category lists it. |
| ReactionRoles.ReactionRoles.RemoveCategory | reactionroles.py:1672-1688 | Rejects an unknown message, a non-menu or an unknown category. Otherwise it deletes that category only. |
| ReactionRoles.ReactionRoles.Cleanup | reactionroles.py:1124-1216 | An empty guild is reported as nothing to clean. Otherwise the guild becomes the cleaned guild, and is deleted when that is empty. The remaining counts are those of the cleaned guild. |
| ComponentIds.CustomId | reactionroles.py:1722 | A button id starts with `role_`, a menu id with `menu_`. |
| ComponentIds.ParseCustomIdInverts | reactionroles.py:1865 | Every component is read back from its `custom_id`. |
| ComponentIds.CustomIdInjective | reactionroles.py:1722 | Distinct components never share a `custom_id`. No two buttons, no two menus and no button and menu collide. |
| ReactionFindings.AsWrittenButton | reactionroles.py:1764-1817 | The button callback as written agrees with the intended rule whenever no cap is set. |
| ReactionFindings.ButtonRebindingCounterexample | reactionroles.py:1769 | As written, clicking the first of two buttons under a cap grants the second button's role. |
| ReactionFindings.AsWrittenReactionAdd | reactionroles.py:521-543 | The reaction handler as written differs from the intended rule only by extra cap rejections. |
| ReactionFindings.ReactionCapCounterexample | reactionroles.py:531 | As written, a member at the cap who already holds the reacted role is refused. |
| ReactionFindings.AsWrittenRemovedRoles | reactionroles.py:1163-1189 | `removed_roles` as written never exceeds the bindings actually removed. |
| ReactionFindings.AsWrittenCleaned | reactionroles.py:1190-1195 | Cleanup as written keeps a subset of the intended cleaned guild. The only messages it also drops are menus with no trigger key. |
| ReactionFindings.MenuCleanupCounterexample | reactionroles.py:1192-1193 | As written, a found menu message with one category is deleted by cleanup. |
| ReactionFindings.CleanupReportCounterexample | reactionroles.py:1204-1205 | As written, one unfound message with one binding leaves a report of one remaining role where none remains. |

## Left out

- **Discord I/O.** Fetching messages, members and roles; adding and removing
  roles and reactions; DMs; embeds; interaction responses; registering
  views. These become inputs:
  - the member's roles and the guild's existing roles;
  - the set of messages that can still be fetched (`found` in cleanup);
  - the bot's top role position;
  - whether a platform call succeeded.

  Role changes are returned as an `Outcome` instead of performed.
- **Reaction removal.** The bot removes a member's reaction when the gate or
  the cap refuses it, and Discord then delivers a reaction-removed event.
  The model treats each event on its own.
- **Concurrency.** Each handler is one atomic step. Interleavings across
  `await` points are not modelled.
- **Dictionary order.** Configuration maps are unordered. Where the code's
  outcome depends on iteration order, the model states the outcome for any
  order:
  - `remove_menu_role` pops the first entry of whichever category lists the
    role, and under the uniqueness invariant that category is the only one;
  - `ReactionFindings.AsWrittenButton` takes the order as a parameter.
- **Text and roles.**
  - `str.lower()` is modelled on ASCII letters only.
  - A trigger key literally named `settings` cannot be bound.
  - Role positions are integers; discord.py role-object comparison is not
    modelled.
- **New messages.** A message that `add_reaction_role` creates gets
  reaction-style default settings. The code stores an entry without
  settings, which every reader then fails on.
- **Settings and commands not modelled:**
  - the `limit` and `embed_data` settings;
  - the `verify`, `rebuild`, `clone` and listing commands;
  - emoji validation;
  - message rendering.
- **Storage.** JSON file load and save, the periodic save tasks, the MongoDB
  branches of both storage classes, and the database wrapper.
- **Clock and randomness.** Wall-clock time and `random.randint` are
  parameters (`now`, `draw`). Mute times are whole seconds counted from
  `datetime.min` (0001-01-01 00:00:00). Microseconds are dropped, which does
  not change when `datetime` overflows, because `datetime.max` ends at
  .999999 of a second.
- **Images and network.** Level cards, leaderboard images and the
  background download are left out.
- **Other modules.** The AI chat, autorole, utility and bootstrap modules
  are not part of this model.
- Leveling.LevelingCog.XpRate: a guild whose settings were created empty by
  another command is reported as missing a setting, where the code raises
  `KeyError`.
- Moderation.ParseDuration: an empty duration is its own error value, where
  the code raises an uncaught `IndexError`.
- Text.ParseInt: `int()` also accepts decimal digits from other scripts (for
  example Arabic-Indic digits). The model accepts only ASCII digits, so such
  a duration is a format error here. Since Python 3.11, `int()` also refuses
  a decimal string of more than 4300 digits, not counting underscores. That
  limit depends on the interpreter version and can be changed at run time, so
  the model does not impose it. Such a duration is a format error in the
  code, but here it is read as a number and ends as an overflow or a mute.

## Findings

| source | as written | input that shows it | evidently intended | confidence | as-written member | corrected member |
|---|---|---|---|---|---|---|
| reactionroles.py:1769 | The `max_roles` counting loop reassigns `role`, so the cap's "target not held" test and the toggle at reactionroles.py:1812 act on the last binding's role. | A message with buttons A→10 and B→20 in that order and `max_roles` 5. A member holding neither clicks A and receives role 20. | The cap test and the toggle use the clicked button's role (reactionroles.py:1737). | medium, not executed | ReactionFindings.ButtonRebindingCounterexample | ReactionResolve.ButtonToggles |
| reactionroles.py:531 | The reaction cap rejects once `role_count >= max_roles`, even when the reacted role is already held. | `max_roles` 1, binding "a"→10, and a member holding 10 reacts "a": the reaction is refused. | Spare a held target, as the button cap does (reactionroles.py:1773). | medium, not executed | ReactionFindings.ReactionCapCounterexample | ReactionResolve.ReactionAddRejectedIff |
| moderation.py:175-178 | `add_roles` runs before the unmute time is computed. When `datetime.now() + timedelta(...)` overflows, the `except Exception` at moderation.py:204 reports an error, and the member keeps the mute role with no record. | `/mute` with duration "4000000d": the role is added, nothing is stored, and the expiry pass never lifts the mute. | Compute the unmute time before adding the role, so a mute is never left without a record. | high, not executed | Moderation.MuteOverflowCounterexample | Moderation.MuteDecisionChecked |
| reactionroles.py:1192-1193 | "Remove empty messages" deletes a message whose only key is `settings`. Every menu message is such a message, because menus keep their roles in the settings. | A found menu message with one category of roles: cleanup deletes it. | Delete only messages that configure no role: no trigger key and no menu category. | medium, not executed | ReactionFindings.MenuCleanupCounterexample | ReactionEdits.CleanedGuildSound |
| reactionroles.py:1163-1166 | Deleting an unfound message adds nothing to `removed_roles`, yet the report prints `initial_roles - removed_roles` as remaining. | One unfound message with one binding: the report says 1 role remains, and none does. | Count the deleted message's bindings as removed. | high, not executed | ReactionFindings.CleanupReportCounterexample | ReactionRoles.DropMissing |

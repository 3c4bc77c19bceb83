/**
 * The leveling cog's bookkeeping: per-guild XP records, level-role rewards,
 * level-up message templates and the XP-rate settings, all updated in place
 * by the admin commands and by the per-message XP award.  The clock and the
 * random draw are parameters.
 */
module Leveling {
  import opened Common
  import opened Text
  import opened LevelCurve

  /** The cog's defaults, used when a guild has no value of its own. */
  const DEFAULT_COOLDOWN := 60
  const DEFAULT_MIN_XP := 10
  const DEFAULT_MAX_XP := 20

  /** Entries per page of `leaderboard` and of `topleaderboard`. */
  const LEADERBOARD_PER_PAGE := 10
  const TOP_LEADERBOARD_PER_PAGE := 5

  /** A user's record `{"xp", "level", "last_message"}`. */
  datatype XpRecord = XpRecord(xp: int, level: int, lastMessage: int)

  /**
   * `leveling_data[guild]["settings"]`; a key the dictionary lacks is `None`.
   * A guild without settings reads the same as one whose settings are `{}`.
   */
  datatype Settings = Settings(
    minXp: Option<int>,
    maxXp: Option<int>,
    cooldown: Option<int>,
    levelUpChannel: Option<int>,
    enabled: Option<bool>,
    levelUpMessages: Option<bool>)

  const NO_SETTINGS := Settings(None, None, None, None, None, None)

  /** What `level_xprate` installs when a guild has no settings yet. */
  const DEFAULT_SETTINGS := Settings(Some(DEFAULT_MIN_XP), Some(DEFAULT_MAX_XP), Some(DEFAULT_COOLDOWN), None, Some(true), Some(true))

  /** `settings.get("min_xp", 10)` and friends, as `on_message` reads them. */
  function EffectiveMin(s: Settings): int { s.minXp.GetOr(DEFAULT_MIN_XP) }
  function EffectiveMax(s: Settings): int { s.maxXp.GetOr(DEFAULT_MAX_XP) }
  function EffectiveCooldown(s: Settings): int { s.cooldown.GetOr(DEFAULT_COOLDOWN) }
  function LevelingEnabled(s: Settings): bool { s.enabled.GetOr(true) }

  /**
   * The XP-rate invariant that `level_xprate` keeps: minimum and maximum are
   * set together, and then 0 <= min <= max.
   */
  ghost predicate RateValid(s: Settings) {
    (s.minXp.Some? <==> s.maxXp.Some?)
    && (s.minXp.Some? ==> 0 <= s.minXp.value <= s.maxXp.value)
  }

  /** Under the invariant the random draw `randint(min, max)` always has a non-empty range. */
  lemma RateValidRange(s: Settings)
    requires RateValid(s)
    ensures 0 <= EffectiveMin(s) <= EffectiveMax(s)
  {
  }

  /** `random.randint(lo, hi)` driven by an arbitrary draw; `None` is its ValueError when lo > hi. */
  function RandInt(lo: int, hi: int, draw: nat): (r: Option<int>)
    ensures r.Some? <==> lo <= hi
    ensures r.Some? ==> lo <= r.value <= hi
  {
    if lo > hi then None else Some(lo + draw % (hi - lo + 1))
  }

  /** Every value in the range is drawn by some draw, so the model loses none of `randint`'s outcomes. */
  lemma RandIntCovers(lo: int, hi: int, v: int)
    requires lo <= v <= hi
    ensures RandInt(lo, hi, (v - lo) as nat) == Some(v)
  {
  }

  lemma EmptyRangeBreaksRate(s: Settings)
    requires EffectiveMin(s) > EffectiveMax(s)
    ensures !RateValid(s)
  {
  }

  // ---------------------------------------------------------------------
  // Leaderboard pages
  // ---------------------------------------------------------------------

  datatype PageOutcome = NoXpData | InvalidPage(totalPages: nat) | Page(start: nat, end: nat, totalPages: nat)

  function TotalPages(n: nat, perPage: nat): (t: nat)
    requires perPage > 0
    ensures t >= 1
    ensures n > 0 ==> (t - 1) * perPage < n <= t * perPage
  {
    var pages := (n + perPage - 1) / perPage;
    if pages == 0 then 1 else pages
  }

  /**
   * The paging of `leaderboard` (and `topleaderboard`) over `n` ranked users:
   * no users is its own reply, then the page must be in 1..total pages, and
   * the page shows ranks `start` up to but excluding `end`.
   */
  function LeaderboardPage(n: nat, page: int, perPage: nat): (r: PageOutcome)
    requires perPage > 0
    ensures r == NoXpData <==> n == 0
    ensures n > 0 ==> (r.Page? <==> 1 <= page && (page - 1) * perPage < n)
    ensures r.Page? ==> r.start == (page - 1) * perPage < r.end <= n
                        && r.end - r.start <= perPage
                        && (r.end < n ==> r.end - r.start == perPage)
  {
    if n == 0 then NoXpData
    else
      var total := TotalPages(n, perPage);
      if page < 1 || page > total then InvalidPage(total)
      else
        var start := (page - 1) * perPage;
        assert start < n by {
          assert page - 1 <= total - 1;
          MulMonotone(page - 1, total - 1, perPage);
        }
        Page(start, if start + perPage < n then start + perPage else n, total)
  }

  lemma MulMonotone(a: nat, b: nat, k: nat)
    requires a <= b
    ensures a * k <= b * k
  {
  }

  /** Every ranked user is shown on exactly one page: the page numbered rank / perPage + 1. */
  lemma EachRankOnOnePage(n: nat, perPage: nat, rank: nat, page: int)
    requires perPage > 0 && rank < n
    ensures LeaderboardPage(n, rank / perPage + 1, perPage).Page?
    ensures var r := LeaderboardPage(n, page, perPage);
            r.Page? && r.start <= rank < r.end <==> page == rank / perPage + 1
  {
    var p := rank / perPage + 1;
    DivBounds(rank, perPage);
    var own := LeaderboardPage(n, p, perPage);
    assert own.Page? && own.start <= rank < own.end;
    var r := LeaderboardPage(n, page, perPage);
    if r.Page? && r.start <= rank < r.end {
      var q := page - 1;
      assert q * perPage <= rank < q * perPage + perPage;
      DivUnique(rank, perPage, q);
    }
  }

  lemma DivBounds(x: nat, k: nat)
    requires k > 0
    ensures (x / k) * k <= x < (x / k) * k + k
  {
    assert x == (x / k) * k + x % k;
  }

  lemma DivUnique(x: nat, k: nat, q: int)
    requires k > 0 && q >= 0 && q * k <= x < q * k + k
    ensures x / k == q
  {
    var d := x / k;
    if d < q {
      MulMonotone(d + 1, q, k);
    } else if d > q {
      MulMonotone(q + 1, d, k);
    }
  }

  // ---------------------------------------------------------------------
  // Level-role rewards
  // ---------------------------------------------------------------------

  function Range(lo: int, hi: int): (r: seq<int>)
    ensures |r| == if lo < hi then hi - lo else 0
    ensures forall i :: 0 <= i < |r| ==> r[i] == lo + i
    ensures forall l :: l in r <==> lo <= l < hi
    decreases hi - lo
  {
    if lo >= hi then [] else [lo] + Range(lo + 1, hi)
  }

  /** `range(1, level + 1) if assign_all_below else [level]`. */
  function LevelsToCheck(level: int, assignAllBelow: bool): (r: seq<int>)
    ensures assignAllBelow ==> forall l :: l in r <==> 1 <= l <= level
    ensures !assignAllBelow ==> r == [level]
  {
    if assignAllBelow then Range(1, level + 1) else [level]
  }

  /** A level's reward is added when the role exists, is not held yet and the bot may assign it. */
  predicate Grants(rewards: map<int, RoleId>, guildRoles: map<RoleId, GuildRole>, held: set<RoleId>, botTop: int, l: int) {
    l in rewards && rewards[l] in guildRoles && rewards[l] !in held && Assignable(guildRoles[rewards[l]], botTop)
  }

  /** The roles `check_level_roles` collects, in level order. */
  function RewardRoles(levels: seq<int>, rewards: map<int, RoleId>, guildRoles: map<RoleId, GuildRole>,
                       held: set<RoleId>, botTop: int): (r: seq<RoleId>)
    ensures forall x :: x in r <==> exists i :: 0 <= i < |levels| && Grants(rewards, guildRoles, held, botTop, levels[i]) && rewards[levels[i]] == x
    ensures |r| <= |levels|
  {
    if |levels| == 0 then []
    else
      var rest := RewardRoles(levels[..|levels| - 1], rewards, guildRoles, held, botTop);
      var l := levels[|levels| - 1];
      assert forall i :: 0 <= i < |levels| - 1 ==> levels[..|levels| - 1][i] == levels[i];
      if Grants(rewards, guildRoles, held, botTop, l) then rest + [rewards[l]] else rest
  }

  // ---------------------------------------------------------------------
  // Level-up messages
  // ---------------------------------------------------------------------

  const DEFAULT_LEVEL_UP_MESSAGE := "🎉 Congratulations {user}! You've reached level **{level}** in {server}!"

  /**
   * `get_level_up_message`: the template stored under `str(level)`, else the
   * guild's catch-all template under `"0"`, else the built-in default.
   */
  function LevelUpTemplate(messages: map<string, string>, level: int): (r: string)
    ensures ShowInt(level) in messages ==> r == messages[ShowInt(level)]
    ensures ShowInt(level) !in messages && "0" in messages ==> r == messages["0"]
    ensures ShowInt(level) !in messages && "0" !in messages ==> r == DEFAULT_LEVEL_UP_MESSAGE
  {
    var key := ShowInt(level);
    if key in messages then messages[key]
    else if "0" in messages then messages["0"]
    else DEFAULT_LEVEL_UP_MESSAGE
  }

  /** The `"0"` template is level 0's own and every other level's fallback; a level's own template wins. */
  lemma LevelUpTemplateFallback(messages: map<string, string>, a: int, b: int)
    requires ShowInt(a) !in messages && ShowInt(b) !in messages
    ensures LevelUpTemplate(messages, a) == LevelUpTemplate(messages, b)
    ensures "0" in messages ==> LevelUpTemplate(messages, a) == LevelUpTemplate(messages, 0)
  {
    assert ShowInt(0) == "0";
  }

  // ---------------------------------------------------------------------
  // The cog's state
  // ---------------------------------------------------------------------

  datatype AdminOutcome = Negative | Stored(record: XpRecord)
  datatype AddXpOutcome = AddXpOutcome(record: XpRecord, leveledUp: bool)
  datatype LevelRoleOutcome = LevelBelowOne | RoleAboveBot | RoleNotAssignable | RewardSet
  datatype XpRateOutcome =
    | NegativeMin | MinAboveMax | MaxBelowMin | NegativeCooldown
    | MissingSetting   // a `settings[...]` read of a key the settings lack (KeyError)
    | Unchanged(minXp: int, maxXp: int, cooldown: int)
    | RatesUpdated

  /** What `on_message` is given about a message. */
  datatype Message = Message(authorIsBot: bool, guild: Option<GuildId>, isSystem: bool, content: string, author: UserId)

  datatype XpAward = Ignored | OnCooldown | RandIntFailed | Awarded(amount: int, record: XpRecord, leveledUp: bool)

  /** The settings with each given rate replaced. */
  function WithRates(s: Settings, minXp: Option<int>, maxXp: Option<int>, cooldown: Option<int>): Settings {
    s.(minXp := if minXp.Some? then minXp else s.minXp,
       maxXp := if maxXp.Some? then maxXp else s.maxXp,
       cooldown := if cooldown.Some? then cooldown else s.cooldown)
  }

  /** The record a level is corrected to when its stored level disagrees with its XP. */
  function Diagnosed(r: XpRecord): (d: XpRecord)
    ensures d.xp == r.xp && d.lastMessage == r.lastMessage
    ensures d.level >= 0 && IsLevelOf(d.xp, d.level as nat)
  {
    LevelForXpSpec(r.xp, LevelForXp(r.xp));
    r.(level := LevelForXp(r.xp))
  }

  class LevelingCog {
    /** guild -> user -> record */
    var xpData: map<GuildId, map<UserId, XpRecord>>
    /** guild -> level -> reward role (stored under `str(level)`) */
    var levelRoles: map<GuildId, map<int, RoleId>>
    /** guild -> `str(level)` or "0" -> template */
    var levelMessages: map<GuildId, map<string, string>>
    /** guild -> settings */
    var settings: map<GuildId, Settings>

    ghost predicate Valid()
      reads this
    {
      forall g :: g in settings ==> RateValid(settings[g])
    }

    constructor ()
      ensures xpData == map[] && levelRoles == map[] && levelMessages == map[] && settings == map[]
      ensures Valid()
    {
      xpData, levelRoles, levelMessages, settings := map[], map[], map[], map[];
    }

    function SettingsOf(g: GuildId): (s: Settings)
      reads this
      ensures g !in settings ==> s == NO_SETTINGS
      ensures Valid() ==> RateValid(s)
    {
      if g in settings then settings[g] else NO_SETTINGS
    }

    function RecordOf(g: GuildId, u: UserId): (r: Option<XpRecord>)
      reads this
      ensures r.Some? <==> g in xpData && u in xpData[g]
      ensures r.Some? ==> r.value == xpData[g][u]
    {
      if g in xpData && u in xpData[g] then Some(xpData[g][u]) else None
    }

    /** Stores one record, creating the guild map when needed. */
    method PutRecord(g: GuildId, u: UserId, r: XpRecord)
      modifies this`xpData
      ensures xpData == old(xpData)[g := (if g in old(xpData) then old(xpData)[g] else map[])[u := r]]
      ensures RecordOf(g, u) == Some(r)
      ensures forall h, v :: (h, v) != (g, u) ==> RecordOf(h, v) == old(RecordOf(h, v))
    {
      var users := if g in xpData then xpData[g] else map[];
      xpData := xpData[g := users[u := r]];
    }

    /** `setxp`: rejects negative XP, otherwise the record is that XP, its level and `now`. */
    method SetXp(g: GuildId, u: UserId, xp: int, now: int) returns (r: AdminOutcome)
      modifies this`xpData
      ensures r == Negative <==> xp < 0
      ensures r == Negative ==> xpData == old(xpData)
      ensures r.Stored? ==> (r.record == XpRecord(xp, LevelForXp(xp), now)
                             && IsLevelOf(xp, r.record.level as nat)
                             && xpData == old(xpData)[g := (if g in old(xpData) then old(xpData)[g] else map[])[u := r.record]])
    {
      if xp < 0 {
        return Negative;
      }
      var level := GetLevelFromXp(xp);
      var record := XpRecord(xp, level, now);
      PutRecord(g, u, record);
      r := Stored(record);
    }

    /**
     * `addxp`: a missing record starts as `{0, 0, now}`; the XP becomes
     * `max(0, xp + delta)` with its level recomputed (it may drop), the last
     * message time is kept, and a level-up is reported when the level rose.
     */
    method AddXp(g: GuildId, u: UserId, delta: int, now: int) returns (r: AddXpOutcome)
      modifies this`xpData
      ensures var before := old(RecordOf(g, u)).GetOr(XpRecord(0, 0, now));
              && r.record.xp == (if before.xp + delta > 0 then before.xp + delta else 0)
              && r.record.level == LevelForXp(r.record.xp)
              && r.record.lastMessage == before.lastMessage
              && (r.leveledUp <==> r.record.level > before.level)
      ensures r.record.xp >= 0 && IsLevelOf(r.record.xp, r.record.level as nat)
      ensures xpData == old(xpData)[g := (if g in old(xpData) then old(xpData)[g] else map[])[u := r.record]]
    {
      var before := if g in xpData && u in xpData[g] then xpData[g][u] else XpRecord(0, 0, now);
      var newXp := if before.xp + delta > 0 then before.xp + delta else 0;
      var newLevel := GetLevelFromXp(newXp);
      var record := before.(xp := newXp, level := newLevel);
      PutRecord(g, u, record);
      r := AddXpOutcome(record, newLevel > before.level);
    }

    /**
     * `setlevel`: rejects a negative level, otherwise stores the curve's total
     * for that level.  The stored level agrees with the XP exactly when the
     * level is at least 1; a level of 0 stores 100 XP, which is level 1.
     */
    method SetLevel(g: GuildId, u: UserId, level: int, now: int) returns (r: AdminOutcome)
      modifies this`xpData
      ensures r == Negative <==> level < 0
      ensures r == Negative ==> xpData == old(xpData)
      ensures r.Stored? ==> (r.record == XpRecord(TotalXp(level), level, now)
                             && (LevelForXp(r.record.xp) == r.record.level <==> level >= 1)
                             && (level == 0 ==> Diagnosed(r.record).level == 1)
                             && xpData == old(xpData)[g := (if g in old(xpData) then old(xpData)[g] else map[])[u := r.record]])
    {
      if level < 0 {
        return Negative;
      }
      var record := XpRecord(TotalXp(level), level, now);
      if level >= 1 {
        LevelOfTotalXp(level);
      } else {
        LevelOfTotalXpZero();
      }
      PutRecord(g, u, record);
      r := Stored(record);
    }

    /**
     * `role add`: the level must be at least 1 and the role below the bot's
     * top role and not a managed role; then it becomes the level's reward,
     * replacing any earlier one.
     */
    method AddLevelRole(g: GuildId, level: int, roleId: RoleId, role: GuildRole, botTop: int) returns (r: LevelRoleOutcome)
      modifies this`levelRoles
      ensures r == RewardSet <==> level >= 1 && Assignable(role, botTop)
      ensures r == LevelBelowOne <==> level < 1
      ensures r == RewardSet ==> levelRoles == old(levelRoles)[g := (if g in old(levelRoles) then old(levelRoles)[g] else map[])[level := roleId]]
      ensures r != RewardSet ==> levelRoles == old(levelRoles)
    {
      if level < 1 {
        return LevelBelowOne;
      }
      if role.position >= botTop {
        return RoleAboveBot;
      }
      if role.isDefault || role.isIntegration || role.isPremiumSubscriber {
        return RoleNotAssignable;
      }
      var rewards := if g in levelRoles then levelRoles[g] else map[];
      levelRoles := levelRoles[g := rewards[level := roleId]];
      r := RewardSet;
    }

    /**
     * `role remove`: rejected when no reward is set for the level; otherwise
     * the reward is deleted, and the guild entry too once it is empty.
     */
    method RemoveLevelRole(g: GuildId, level: int) returns (removed: bool)
      modifies this`levelRoles
      ensures removed <==> g in old(levelRoles) && level in old(levelRoles)[g]
      ensures !removed ==> levelRoles == old(levelRoles)
      ensures removed ==> var rest := old(levelRoles)[g] - {level};
                          levelRoles == if rest == map[] then old(levelRoles) - {g} else old(levelRoles)[g := rest]
      ensures forall h :: h in levelRoles ==> levelRoles[h] != map[] || (h in old(levelRoles) && old(levelRoles)[h] == map[])
    {
      if g !in levelRoles || level !in levelRoles[g] {
        return false;
      }
      var rest := levelRoles[g] - {level};
      if rest == map[] {
        levelRoles := levelRoles - {g};
      } else {
        levelRoles := levelRoles[g := rest];
      }
      removed := true;
    }

    /**
     * `check_level_roles`: the reward roles to add for `level` (or for every
     * level from 1 to `level` when `assignAllBelow`), skipping roles that are
     * gone, already held, or not assignable by the bot.
     */
    method CheckLevelRoles(g: GuildId, level: int, assignAllBelow: bool, guildRoles: map<RoleId, GuildRole>,
                           held: set<RoleId>, botTop: int) returns (toAdd: seq<RoleId>)
      ensures var rewards := if g in levelRoles then levelRoles[g] else map[];
              toAdd == RewardRoles(LevelsToCheck(level, assignAllBelow), rewards, guildRoles, held, botTop)
      ensures forall x :: x in toAdd ==> x in guildRoles && x !in held && Assignable(guildRoles[x], botTop)
      ensures !assignAllBelow ==> |toAdd| <= 1
    {
      if g !in levelRoles {
        var none := RewardRoles(LevelsToCheck(level, assignAllBelow), map[], guildRoles, held, botTop);
        if |none| > 0 {
          assert none[0] in none;
        }
        return [];
      }
      var rewards := levelRoles[g];
      var levels := LevelsToCheck(level, assignAllBelow);
      toAdd := [];
      var i := 0;
      while i < |levels|
        invariant 0 <= i <= |levels|
        invariant toAdd == RewardRoles(levels[..i], rewards, guildRoles, held, botTop)
      {
        var l := levels[i];
        assert levels[..i + 1][..i] == levels[..i];
        if l in rewards {
          var roleId := rewards[l];
          if roleId in guildRoles && roleId !in held && Assignable(guildRoles[roleId], botTop) {
            toAdd := toAdd + [roleId];
          }
        }
        i := i + 1;
      }
      assert levels[..i] == levels;
    }

    /**
     * `level_xprate`: installs the default settings when the guild has none,
     * then checks and writes the minimum, the maximum and the cooldown in
     * that order; a rejection keeps whatever was written before it.
     */
    method XpRate(g: GuildId, minXp: Option<int>, maxXp: Option<int>, cooldown: Option<int>) returns (r: XpRateOutcome)
      modifies this`settings
      ensures var initial := if g in old(settings) then old(settings)[g] else DEFAULT_SETTINGS;
              && settings.Keys == old(settings).Keys + {g}
              && (forall h :: h in settings && h != g ==> settings[h] == old(settings)[h])
              && (r in {NegativeMin, MinAboveMax, MaxBelowMin, MissingSetting} || r.Unchanged? ==> settings[g] == initial)
              && (r == NegativeCooldown ==> settings[g] == WithRates(initial, minXp, maxXp, None))
              && (r == RatesUpdated ==> settings[g] == WithRates(initial, minXp, maxXp, cooldown))
              && (minXp.Some? && minXp.value < 0 ==> r == NegativeMin)
              && (minXp.Some? && maxXp.Some? && minXp.value > maxXp.value ==> r == MinAboveMax || r == NegativeMin)
              && (r.Unchanged? <==> minXp.None? && maxXp.None? && cooldown.None?
                                    && initial.minXp.Some? && initial.maxXp.Some? && initial.cooldown.Some?)
      ensures r == RatesUpdated ==> (minXp.Some? ==> minXp.value >= 0) && (cooldown.Some? ==> cooldown.value >= 0)
      ensures old(Valid()) ==> Valid()
    {
      var s := if g in settings then settings[g] else DEFAULT_SETTINGS;
      settings := settings[g := s];
      var changed := false;
      if minXp.Some? {
        if minXp.value < 0 {
          return NegativeMin;
        }
        var currentMax: int;
        if maxXp.Some? {
          currentMax := maxXp.value;
        } else if s.maxXp.Some? {
          currentMax := s.maxXp.value;
        } else {
          return MissingSetting;
        }
        if minXp.value > currentMax {
          return MinAboveMax;
        }
        s := s.(minXp := minXp);
        settings := settings[g := s];
        changed := true;
      }
      if maxXp.Some? {
        if s.minXp.None? {
          return MissingSetting;
        }
        if maxXp.value < s.minXp.value {
          return MaxBelowMin;
        }
        s := s.(maxXp := maxXp);
        settings := settings[g := s];
        changed := true;
      }
      if cooldown.Some? {
        if cooldown.value < 0 {
          return NegativeCooldown;
        }
        s := s.(cooldown := cooldown);
        settings := settings[g := s];
        changed := true;
      }
      if !changed {
        if s.minXp.None? || s.maxXp.None? || s.cooldown.None? {
          return MissingSetting;
        }
        return Unchanged(s.minXp.value, s.maxXp.value, s.cooldown.value);
      }
      r := RatesUpdated;
    }

    /** `toggleleveling`: creates empty settings when needed and stores the flag. */
    method ToggleLeveling(g: GuildId, enabled: bool)
      modifies this`settings
      ensures settings == old(settings)[g := old(SettingsOf(g)).(enabled := Some(enabled))]
      ensures LevelingEnabled(SettingsOf(g)) == enabled
      ensures old(Valid()) ==> Valid()
    {
      var s := if g in settings then settings[g] else NO_SETTINGS;
      settings := settings[g := s.(enabled := Some(enabled))];
    }

    /** The template `handle_level_up` announces for `level` in guild `g`. */
    function LevelUpMessage(g: GuildId, level: int): (r: string)
      reads this
      ensures g !in levelMessages ==> r == DEFAULT_LEVEL_UP_MESSAGE
      ensures g in levelMessages && ShowInt(level) in levelMessages[g] ==> r == levelMessages[g][ShowInt(level)]
      ensures g in levelMessages && ShowInt(level) !in levelMessages[g] && "0" in levelMessages[g] ==> r == levelMessages[g]["0"]
    {
      LevelUpTemplate(if g in levelMessages then levelMessages[g] else map[], level)
    }

    /**
     * The XP update of `on_message`: bots, direct messages, system messages,
     * empty messages and guilds with leveling disabled are ignored; a missing
     * record starts as `{0, 0, 0}`; within the cooldown nothing else changes;
     * otherwise the last-message time becomes `now`, a random amount between
     * the guild's minimum and maximum is added, and the level is raised (never
     * lowered) to the level of the new total.
     */
    method OnMessage(m: Message, now: int, draw: nat) returns (r: XpAward)
      modifies this`xpData
      ensures (m.authorIsBot || m.guild.None? || m.isSystem || |m.content| == 0
               || !LevelingEnabled(SettingsOf(m.guild.value))) <==> r == Ignored
      ensures r == Ignored ==> xpData == old(xpData)
      ensures r != Ignored ==>
                var g, u := m.guild.value, m.author;
                var s := SettingsOf(g);
                var before := old(RecordOf(g, u)).GetOr(XpRecord(0, 0, 0));
                && (r == OnCooldown <==> now - before.lastMessage < EffectiveCooldown(s))
                && (r == OnCooldown ==> RecordOf(g, u) == Some(before))
                && (r == RandIntFailed ==> EffectiveMin(s) > EffectiveMax(s) && RecordOf(g, u) == Some(before.(lastMessage := now)))
                && (r.Awarded? ==> (EffectiveMin(s) <= r.amount <= EffectiveMax(s)
                                    && r.record.xp == before.xp + r.amount
                                    && r.record.lastMessage == now
                                    && r.record.level == (if LevelForXp(r.record.xp) > before.level then LevelForXp(r.record.xp) else before.level)
                                    && (r.leveledUp <==> LevelForXp(r.record.xp) > before.level)
                                    && RecordOf(g, u) == Some(r.record)))
                && (forall h, v :: (h, v) != (g, u) ==> RecordOf(h, v) == old(RecordOf(h, v)))
      ensures Valid() ==> r != RandIntFailed
    {
      if m.authorIsBot || m.guild.None? || m.isSystem || |m.content| == 0 {
        return Ignored;
      }
      var g, u := m.guild.value, m.author;
      var s := if g in settings then settings[g] else NO_SETTINGS;
      if !LevelingEnabled(s) {
        return Ignored;
      }
      var before := if g in xpData && u in xpData[g] then xpData[g][u] else XpRecord(0, 0, 0);
      PutRecord(g, u, before);
      if now - before.lastMessage < EffectiveCooldown(s) {
        return OnCooldown;
      }
      var record := before.(lastMessage := now);
      PutRecord(g, u, record);
      var gain := RandInt(EffectiveMin(s), EffectiveMax(s), draw);
      if gain.None? {
        EmptyRangeBreaksRate(s);
        return RandIntFailed;
      }
      record := record.(xp := record.xp + gain.value);
      var newLevel := GetLevelFromXp(record.xp);
      var leveledUp := newLevel > record.level;
      if leveledUp {
        record := record.(level := newLevel);
      }
      PutRecord(g, u, record);
      r := Awarded(gain.value, record, leveledUp);
    }
  }

  /**
   * A record whose level matches its XP keeps matching after a non-negative
   * award, since the level of a larger total is never lower.
   */
  lemma AwardKeepsLevelConsistent(before: XpRecord, amount: int)
    requires amount >= 0 && before.level == LevelForXp(before.xp)
    ensures var xp := before.xp + amount;
            (if LevelForXp(xp) > before.level then LevelForXp(xp) else before.level) == LevelForXp(xp)
  {
    LevelForXpMonotone(before.xp, before.xp + amount);
  }
}

/**
 * Moderation bookkeeping: the mute-duration parser, the role-hierarchy guard,
 * the warnings table and the mute table (both updated in place), the periodic
 * mute-expiry pass and the purge bounds.  Platform calls (adding or removing
 * the mute role, banning, kicking, deleting messages) are taken as inputs
 * that say whether the call succeeded.
 */
module Moderation {
  import opened Common
  import opened Text

  // ---------------------------------------------------------------------
  // The mute duration "<integer><unit>"
  // ---------------------------------------------------------------------

  /** Seconds per unit: s, m, h, d; any other character is not a unit. */
  function UnitSeconds(unit: char): (r: Option<int>)
    ensures r.Some? <==> unit in "smhd"
  {
    match unit
    case 's' => Some(1)
    case 'm' => Some(60)
    case 'h' => Some(3600)
    case 'd' => Some(86400)
    case _ => None
  }

  /** The replies `mute` gives to a duration it cannot use. */
  datatype DurationError =
    | EmptyDuration   // `duration[-1]` raises IndexError, which the handler does not catch
    | InvalidFormat   // `int(duration[:-1])` raised ValueError
    | InvalidUnit     // the last character is not s, m, h or d

  datatype Duration = Seconds(seconds: int) | BadDuration(error: DurationError)

  /**
   * The duration parse in `mute`: the unit is the lower-cased last character,
   * the prefix must be text that `int()` accepts (checked before the unit),
   * and negative values are accepted.
   */
  function ParseDuration(duration: string): (r: Duration)
    ensures |duration| == 0 <==> r == BadDuration(EmptyDuration)
    ensures r.Seconds? ==> AsciiLower(duration[|duration| - 1]) in "smhd"
    ensures |duration| > 0 && ParseInt(duration[..|duration| - 1]).None? ==> r == BadDuration(InvalidFormat)
  {
    if |duration| == 0 then BadDuration(EmptyDuration)
    else
      var unit := AsciiLower(duration[|duration| - 1]);
      match ParseInt(duration[..|duration| - 1])
      case None => BadDuration(InvalidFormat)
      case Some(value) =>
        match UnitSeconds(unit)
        case None => BadDuration(InvalidUnit)
        case Some(factor) => Seconds(value * factor)
  }

  /** Whatever text `int()` reads as `v`, followed by a unit letter of either case, is `v` units. */
  lemma DurationOfInteger(prefix: string, v: int, unit: char)
    requires ParseInt(prefix) == Some(v)
    ensures AsciiLower(unit) in "smhd" ==>
      ParseDuration(prefix + [unit]) == Seconds(v * UnitSeconds(AsciiLower(unit)).value)
    ensures AsciiLower(unit) !in "smhd" ==> ParseDuration(prefix + [unit]) == BadDuration(InvalidUnit)
  {
    var d := prefix + [unit];
    assert d[..|d| - 1] == prefix && d[|d| - 1] == unit;
  }

  /** `"<v><u>"` parses to v seconds, minutes, hours or days, whatever the case of the unit letter. */
  lemma DurationRoundTrip(v: int, unit: char)
    requires AsciiLower(unit) in "smhd"
    ensures ParseDuration(ShowInt(v) + [unit]) == Seconds(v * UnitSeconds(AsciiLower(unit)).value)
    ensures AsciiLower(unit) == 'm' ==> ParseDuration(ShowInt(v) + [unit]) == Seconds(60 * v)
    ensures AsciiLower(unit) == 'd' ==> ParseDuration(ShowInt(v) + [unit]) == Seconds(86400 * v)
  {
    ParseShowInt(v);
    DurationOfInteger(ShowInt(v), v, unit);
    var factor := UnitSeconds(AsciiLower(unit)).value;
    assert AsciiLower(unit) == 'm' ==> factor == 60;
    assert AsciiLower(unit) == 'd' ==> factor == 86400;
  }

  /** An integer followed by any other character is an invalid unit. */
  lemma OtherUnitRejected(v: int, unit: char)
    requires AsciiLower(unit) !in "smhd"
    ensures ParseDuration(ShowInt(v) + [unit]) == BadDuration(InvalidUnit)
  {
    ParseShowInt(v);
    DurationOfInteger(ShowInt(v), v, unit);
  }

  /** `int()` ignores whitespace around the number, so spaces before it or before the unit change nothing. */
  lemma SpaceAroundDuration(before: string, prefix: string, after: string, unit: char)
    requires forall i :: 0 <= i < |before| ==> IsSpace(before[i])
    requires forall i :: 0 <= i < |after| ==> IsSpace(after[i])
    ensures ParseDuration(before + prefix + after + [unit]) == ParseDuration(prefix + [unit])
  {
    SpaceAroundIgnored(before, prefix, after);
    var d, e := before + prefix + after + [unit], prefix + [unit];
    assert d[..|d| - 1] == before + prefix + after && d[|d| - 1] == unit;
    assert e[..|e| - 1] == prefix && e[|e| - 1] == unit;
  }

  // ---------------------------------------------------------------------
  // The role-hierarchy guard of ban, kick, mute and warn
  // ---------------------------------------------------------------------

  /**
   * `interaction.user.top_role <= member.top_role` rejects; a top role is
   * represented by its rank in the guild's role order.
   */
  function HierarchyAllows(invokerTop: int, targetTop: int): (ok: bool)
    ensures ok ==> invokerTop != targetTop
  {
    !(invokerTop <= targetTop)
  }

  /** Two members can never both act on each other, and nobody acts on a member with the same top role. */
  lemma NoMutualModeration(a: int, b: int)
    ensures !(HierarchyAllows(a, b) && HierarchyAllows(b, a))
    ensures a == b ==> !HierarchyAllows(a, b)
  {
  }

  /** The outcome of `ban` and `kick`: the guard first, then the platform call. */
  datatype ActionOutcome = HierarchyRejected | ActionForbidden | ActionDone

  function BanOrKick(invokerTop: int, targetTop: int, callSucceeds: bool): (r: ActionOutcome)
    ensures r == ActionDone <==> HierarchyAllows(invokerTop, targetTop) && callSucceeds
    ensures r == HierarchyRejected <==> invokerTop <= targetTop
  {
    if !HierarchyAllows(invokerTop, targetTop) then HierarchyRejected
    else if callSucceeds then ActionDone
    else ActionForbidden
  }

  // ---------------------------------------------------------------------
  // Purge bounds
  // ---------------------------------------------------------------------

  datatype PurgeOutcome = AmountOutOfRange | Purged(count: nat)

  /** `purge(amount)`: only 1..100 reach the channel, which deletes up to `amount` of its `available` messages. */
  function Purge(amount: int, available: nat): (r: PurgeOutcome)
    ensures r.Purged? <==> 1 <= amount <= 100
    ensures r.Purged? ==> r.count <= amount && r.count <= available
    ensures r.Purged? ==> (r.count == amount || r.count == available)
  {
    if amount <= 0 || amount > 100 then AmountOutOfRange
    else Purged(if amount < available then amount else available)
  }

  // ---------------------------------------------------------------------
  // The mute-expiry pass, as a function of the table
  // ---------------------------------------------------------------------

  /** What the platform says during one expiry pass. */
  datatype GuildView = GuildView(
    reachable: set<GuildId>,                // `bot.get_guild` finds the guild
    withMuteRole: set<GuildId>,             // the guild has a role named "Muted"
    holdsMuteRole: set<(GuildId, UserId)>,  // the member is present and holds that role
    removalFails: set<(GuildId, UserId)>)   // `remove_roles` raises for that member

  /** Whether one pass at time `now` deletes the record of `u` in `g`. */
  predicate Expires(view: GuildView, now: int, g: GuildId, u: UserId, unmuteAt: int) {
    g in view.reachable && g in view.withMuteRole && now >= unmuteAt
    && (g, u) in view.holdsMuteRole && (g, u) !in view.removalFails
  }

  /** The records of one guild that survive a pass. */
  function Survivors(view: GuildView, now: int, g: GuildId, records: map<UserId, int>): (r: map<UserId, int>)
    ensures r.Keys <= records.Keys
    ensures forall u :: u in r ==> r[u] == records[u]
  {
    map u | u in records && !Expires(view, now, g, u, records[u]) :: records[u]
  }

  /** The whole table after a pass; guild keys are never deleted. */
  function AfterExpiry(view: GuildView, now: int, muted: map<GuildId, map<UserId, int>>): (r: map<GuildId, map<UserId, int>>)
    ensures r.Keys == muted.Keys
    ensures forall g :: g in muted ==> r[g].Keys <= muted[g].Keys
    ensures forall g, u :: g in muted && u in muted[g] ==>
              (u in r[g] <==> !Expires(view, now, g, u, muted[g][u])) && (u in r[g] ==> r[g][u] == muted[g][u])
  {
    map g | g in muted :: Survivors(view, now, g, muted[g])
  }

  /** A pass deletes exactly the expired records whose member still holds the mute role and could be unmuted. */
  lemma ExpiryDeletesExactly(view: GuildView, now: int, muted: map<GuildId, map<UserId, int>>, g: GuildId, u: UserId)
    requires g in muted && u in muted[g]
    ensures u !in AfterExpiry(view, now, muted)[g] <==> Expires(view, now, g, u, muted[g][u])
    ensures now < muted[g][u] ==> AfterExpiry(view, now, muted)[g][u] == muted[g][u]
    ensures (g, u) !in view.holdsMuteRole ==> u in AfterExpiry(view, now, muted)[g]
  {
  }

  /** Running the pass again with the same view and clock changes nothing more. */
  lemma {:induction false} ExpiryIdempotent(view: GuildView, now: int, muted: map<GuildId, map<UserId, int>>)
    ensures AfterExpiry(view, now, AfterExpiry(view, now, muted)) == AfterExpiry(view, now, muted)
  {
    var once := AfterExpiry(view, now, muted);
    forall g | g in once
      ensures Survivors(view, now, g, once[g]) == once[g]
    {
      assert once[g] == Survivors(view, now, g, muted[g]);
    }
  }

  /** A later pass (same view) leaves no more records than an earlier one would. */
  lemma LaterPassRemovesMore(view: GuildView, t1: int, t2: int, muted: map<GuildId, map<UserId, int>>, g: GuildId)
    requires t1 <= t2 && g in muted
    ensures AfterExpiry(view, t2, muted)[g].Keys <= AfterExpiry(view, t1, muted)[g].Keys
  {
  }

  /**
   * The inner loop of `check_mute_expiry` for one reachable guild that has a
   * mute role: walks the guild's records and drops each one that `Expires`.
   */
  method ExpireGuild(view: GuildView, now: int, g: GuildId, records: map<UserId, int>) returns (kept: map<UserId, int>)
    requires g in view.reachable && g in view.withMuteRole
    ensures kept == Survivors(view, now, g, records)
  {
    var users := records.Keys;
    kept := records;
    while users != {}
      invariant users <= records.Keys
      invariant kept.Keys <= records.Keys
      invariant forall u :: u in kept ==> kept[u] == records[u]
      invariant forall u :: u in records && u in users ==> u in kept
      invariant forall u :: u in records && u !in users ==>
                  (u in kept <==> !Expires(view, now, g, u, records[u]))
      decreases users
    {
      ghost var pick := ElementOf(users);
      var u :| u in users;
      users := users - {u};
      if now >= records[u] && (g, u) in view.holdsMuteRole && (g, u) !in view.removalFails {
        kept := kept - {u};
      }
    }
  }

  // ---------------------------------------------------------------------
  // The tables
  // ---------------------------------------------------------------------

  /** One entry of the warnings table: `{"reason", "timestamp", "moderator"}`. */
  datatype Warning = Warning(reason: string, timestamp: int, moderator: UserId)

  datatype MuteOutcome =
    | MuteHierarchyRejected
    | MuteBadDuration(error: DurationError)
    | MuteRoleUnavailable   // `create_mute_role` found no role and could not create one
    | MuteForbidden         // `add_roles` raised
    | MuteOverflow          // `add_roles` succeeded, then the unmute time raised `OverflowError`
    | MuteTimeOutOfRange    // the unmute time is checked before `add_roles` (the corrected order only)
    | Muted(unmuteAt: int)

  /** The outcomes after which the member holds the mute role. */
  predicate AddsMuteRole(r: MuteOutcome) {
    r.Muted? || r.MuteOverflow?
  }

  /**
   * Times are whole seconds counted from `datetime.min` (0001-01-01 00:00:00);
   * `datetime.max` is 9999-12-31 23:59:59.999999, and `timedelta` holds at
   * most 999999999 days either way.
   */
  const DATETIME_MAX_SECONDS: int := 315537897599
  const TIMEDELTA_MAX_DAYS: int := 999999999

  /** `datetime.now() + timedelta(seconds=seconds)` raises no `OverflowError`. */
  predicate UnmuteTimeRepresentable(now: int, seconds: int) {
    -TIMEDELTA_MAX_DAYS <= seconds / 86400 <= TIMEDELTA_MAX_DAYS
    && 0 <= now + seconds <= DATETIME_MAX_SECONDS
  }

  /**
   * What `mute` does, in its order: the guard, the duration, the mute role,
   * `add_roles`, then the unmute time, whose overflow is caught by the final
   * `except Exception` after the role was already added.
   */
  function MuteDecision(invokerTop: int, targetTop: int, duration: string,
                        muteRoleAvailable: bool, addRoleSucceeds: bool, now: int): (r: MuteOutcome)
    ensures !HierarchyAllows(invokerTop, targetTop) ==> r == MuteHierarchyRejected
    ensures HierarchyAllows(invokerTop, targetTop) && ParseDuration(duration).BadDuration?
            ==> r == MuteBadDuration(ParseDuration(duration).error)
    ensures AddsMuteRole(r) <==> HierarchyAllows(invokerTop, targetTop) && ParseDuration(duration).Seconds?
                                 && muteRoleAvailable && addRoleSucceeds
    ensures r.Muted? <==> AddsMuteRole(r) && UnmuteTimeRepresentable(now, ParseDuration(duration).seconds)
    ensures r.Muted? ==> r.unmuteAt == now + ParseDuration(duration).seconds
    ensures !r.MuteTimeOutOfRange?
  {
    if !HierarchyAllows(invokerTop, targetTop) then MuteHierarchyRejected
    else match ParseDuration(duration)
      case BadDuration(error) => MuteBadDuration(error)
      case Seconds(seconds) =>
        if !muteRoleAvailable then MuteRoleUnavailable
        else if !addRoleSucceeds then MuteForbidden
        else if !UnmuteTimeRepresentable(now, seconds) then MuteOverflow
        else Muted(now + seconds)
  }

  /** A mute of 4000000 days adds the role and stores no record, so the expiry pass never lifts it. */
  lemma MuteOverflowCounterexample(now: int)
    requires 0 <= now <= DATETIME_MAX_SECONDS
    ensures MuteDecision(1, 0, ShowInt(4000000) + "d", true, true, now) == MuteOverflow
  {
    DurationRoundTrip(4000000, 'd');
  }

  /**
   * The evidently intended order: the unmute time is computed before the
   * role is added, so the role is only ever added together with a record.
   */
  function MuteDecisionChecked(invokerTop: int, targetTop: int, duration: string,
                               muteRoleAvailable: bool, addRoleSucceeds: bool, now: int): (r: MuteOutcome)
    ensures AddsMuteRole(r) ==> r.Muted?
    ensures r.Muted? <==> MuteDecision(invokerTop, targetTop, duration, muteRoleAvailable, addRoleSucceeds, now).Muted?
    ensures r.Muted? ==> r == MuteDecision(invokerTop, targetTop, duration, muteRoleAvailable, addRoleSucceeds, now)
    ensures r == MuteTimeOutOfRange <==>
            HierarchyAllows(invokerTop, targetTop) && ParseDuration(duration).Seconds?
            && !UnmuteTimeRepresentable(now, ParseDuration(duration).seconds)
  {
    if !HierarchyAllows(invokerTop, targetTop) then MuteHierarchyRejected
    else match ParseDuration(duration)
      case BadDuration(error) => MuteBadDuration(error)
      case Seconds(seconds) =>
        if !UnmuteTimeRepresentable(now, seconds) then MuteTimeOutOfRange
        else if !muteRoleAvailable then MuteRoleUnavailable
        else if !addRoleSucceeds then MuteForbidden
        else Muted(now + seconds)
  }

  datatype UnmuteOutcome = NoMuteRole | NotMuted | UnmuteForbidden | Unmuted

  class ModerationState {
    /** guild -> user -> warnings, oldest first */
    var warnings: map<GuildId, map<UserId, seq<Warning>>>
    /** guild -> user -> unmute time (seconds) */
    var muted: map<GuildId, map<UserId, int>>

    constructor ()
      ensures warnings == map[] && muted == map[]
    {
      warnings, muted := map[], map[];
    }

    /** A member's warnings; an unknown guild or user has none. */
    function WarningsOf(g: GuildId, u: UserId): (r: seq<Warning>)
      reads this
      ensures g in warnings && u in warnings[g] ==> r == warnings[g][u]
      ensures !(g in warnings && u in warnings[g]) ==> r == []
    {
      if g in warnings && u in warnings[g] then warnings[g][u] else []
    }

    /** A member's pending unmute time, if recorded. */
    function MuteRecord(g: GuildId, u: UserId): (r: Option<int>)
      reads this
      ensures r.Some? <==> g in muted && u in muted[g]
      ensures r.Some? ==> r.value == muted[g][u]
    {
      if g in muted && u in muted[g] then Some(muted[g][u]) else None
    }

    /**
     * `warn`: behind the hierarchy guard, appends exactly one warning and
     * reports the new count; every other member's list is unchanged.
     */
    method Warn(g: GuildId, u: UserId, invokerTop: int, targetTop: int, w: Warning) returns (count: Option<nat>)
      modifies this`warnings
      ensures count.None? <==> !HierarchyAllows(invokerTop, targetTop)
      ensures count.None? ==> warnings == old(warnings)
      ensures count.Some? ==> WarningsOf(g, u) == old(WarningsOf(g, u)) + [w] && count.value == |WarningsOf(g, u)|
      ensures forall h, v :: (h, v) != (g, u) ==> WarningsOf(h, v) == old(WarningsOf(h, v))
    {
      if !HierarchyAllows(invokerTop, targetTop) {
        return None;
      }
      if g !in warnings {
        warnings := warnings[g := map[]];
      }
      if u !in warnings[g] {
        warnings := warnings[g := warnings[g][u := []]];
      }
      var list := warnings[g][u] + [w];
      warnings := warnings[g := warnings[g][u := list]];
      count := Some(|list|);
    }

    /**
     * `clearwarnings`: rejected when the member has no warnings; otherwise
     * the list becomes empty (the key stays) and the old count is reported.
     */
    method ClearWarnings(g: GuildId, u: UserId) returns (cleared: Option<nat>)
      modifies this`warnings
      ensures cleared.None? <==> old(WarningsOf(g, u)) == []
      ensures cleared.None? ==> warnings == old(warnings)
      ensures cleared.Some? ==> (cleared.value == |old(WarningsOf(g, u))| > 0
                                 && warnings == old(warnings)[g := old(warnings)[g][u := []]])
      ensures WarningsOf(g, u) == []
    {
      if g !in warnings || u !in warnings[g] || |warnings[g][u]| == 0 {
        return None;
      }
      var n := |warnings[g][u]|;
      warnings := warnings[g := warnings[g][u := []]];
      cleared := Some(n);
    }

    /**
     * `mute`: stores the record `now + seconds`, overwriting any earlier one,
     * exactly when `MuteDecision` says the member is muted; every other
     * outcome, including the role added without a record, leaves the table.
     */
    method Mute(g: GuildId, u: UserId, invokerTop: int, targetTop: int, duration: string,
                muteRoleAvailable: bool, addRoleSucceeds: bool, now: int) returns (r: MuteOutcome)
      modifies this`muted
      ensures r == MuteDecision(invokerTop, targetTop, duration, muteRoleAvailable, addRoleSucceeds, now)
      ensures r.Muted? ==> (MuteRecord(g, u) == Some(r.unmuteAt)
                            && muted == old(muted)[g := (if g in old(muted) then old(muted)[g] else map[])[u := r.unmuteAt]])
      ensures !r.Muted? ==> muted == old(muted)
    {
      r := MuteDecision(invokerTop, targetTop, duration, muteRoleAvailable, addRoleSucceeds, now);
      if r.Muted? {
        if g !in muted {
          muted := muted[g := map[]];
        }
        muted := muted[g := muted[g][u := r.unmuteAt]];
      }
    }

    /**
     * `unmute`: needs the mute role to exist and the member to hold it; on a
     * successful removal it deletes only that member's record, if any.
     */
    method Unmute(g: GuildId, u: UserId, muteRoleExists: bool, memberHoldsMuteRole: bool, removalSucceeds: bool)
      returns (r: UnmuteOutcome)
      modifies this`muted
      ensures r == Unmuted <==> muteRoleExists && memberHoldsMuteRole && removalSucceeds
      ensures r == Unmuted ==> (MuteRecord(g, u) == None
                                && muted.Keys == old(muted).Keys
                                && (g in muted ==> muted[g] == old(muted)[g] - {u}))
      ensures r != Unmuted ==> muted == old(muted)
      ensures forall h, v :: (h, v) != (g, u) ==> MuteRecord(h, v) == old(MuteRecord(h, v))
    {
      if !muteRoleExists {
        return NoMuteRole;
      }
      if !memberHoldsMuteRole {
        return NotMuted;
      }
      if !removalSucceeds {
        return UnmuteForbidden;
      }
      if g in muted && u in muted[g] {
        muted := muted[g := muted[g] - {u}];
      }
      r := Unmuted;
    }

    /**
     * One pass of `check_mute_expiry` at time `now`: for every guild, then
     * every record in it, deletes the record when it has expired, the member
     * still holds the mute role and the removal succeeds.
     */
    method CheckMuteExpiry(view: GuildView, now: int)
      modifies this`muted
      ensures muted == AfterExpiry(view, now, old(muted))
    {
      var guilds := muted.Keys;
      ghost var start := muted;
      while guilds != {}
        invariant guilds <= start.Keys
        invariant muted.Keys == start.Keys
        invariant forall g :: g in muted && g !in guilds ==> muted[g] == Survivors(view, now, g, start[g])
        invariant forall g :: g in muted && g in guilds ==> muted[g] == start[g]
        decreases guilds
      {
        ghost var pick := ElementOf(guilds);
        var g :| g in guilds;
        assert g in muted;
        guilds := guilds - {g};
        if g in view.reachable && g in view.withMuteRole {
          var kept := ExpireGuild(view, now, g, muted[g]);
          muted := muted[g := kept];
        } else {
          assert muted[g] == Survivors(view, now, g, start[g]);
        }
      }
    }
  }
}

/**
 * What one activation of a role message does to a member's roles, as set
 * arithmetic over role ids: a button click, a reaction added or removed, or
 * a selection in a menu category.  Each activation is either rejected (no
 * role changes) or applied as a set of roles to remove and a set to add.
 *
 * The member's roles are the snapshot the handler starts from: every check
 * and every "is it held" test reads that snapshot, as the handlers read
 * `member.roles` once per event.  A role counts as held when it still exists
 * in the guild and the member has it.
 */
module ReactionResolve {
  import opened Common
  import opened ReactionConfig

  datatype Reason =
    | WrongGuild          // the component belongs to another guild
    | BotReaction         // the reaction is the bot's own
    | NoBinding           // the message or the trigger key is not configured
    | MissingMessage      // the message entry is gone (a KeyError in the handler)
    | MissingCategory     // the menu category is gone (a KeyError in the handler)
    | RoleMissing         // the target role no longer exists
    | MissingRequiredRole // the required-roles gate is closed
    | CapReached          // the max_roles cap is reached

  datatype Outcome = Rejected(reason: Reason) | Applied(add: set<RoleId>, remove: set<RoleId>)

  /** The member's roles after an outcome: removals first, then additions. */
  function Apply(roles: set<RoleId>, o: Outcome): set<RoleId> {
    match o
    case Rejected(_) => roles
    case Applied(add, remove) => (roles - remove) + add
  }

  /** The roles that still exist and that the member has. */
  function Held(memberRoles: set<RoleId>, guildRoles: set<RoleId>): set<RoleId> {
    memberRoles * guildRoles
  }

  /** The required-roles gate: open when no role is required or one of them is held. */
  predicate GateOpen(required: seq<RoleId>, held: set<RoleId>) {
    |required| == 0 || exists i :: 0 <= i < |required| && required[i] in held
  }

  /** The trigger keys of a message whose role is held. */
  function BoundHeldKeys(triggers: map<string, Binding>, held: set<RoleId>): set<string> {
    set k | k in triggers && triggers[k].roleId in held
  }

  /** `role_count`: how many of a message's bindings point at a held role. */
  function BoundHeldCount(triggers: map<string, Binding>, held: set<RoleId>): nat {
    |BoundHeldKeys(triggers, held)|
  }

  /**
   * The cap: a truthy `max_roles` blocks an activation once the member holds
   * that many of the message's bound roles, unless the target is already held.
   */
  predicate CapBlocks(s: Settings, triggers: map<string, Binding>, held: set<RoleId>, target: RoleId) {
    s.maxRoles != 0 && BoundHeldCount(triggers, held) >= s.maxRoles && target !in held
  }

  /** Which binding of the activated message a removal pass leaves alone. */
  datatype Skip = SkipNone | SkipKey(key: string) | SkipRole(roleId: RoleId) {
    predicate Matches(k: string, b: Binding) {
      match this
      case SkipNone => false
      case SkipKey(key) => k == key
      case SkipRole(r) => b.roleId == r
    }
  }

  /** The held roles bound on one message, except the skipped binding. */
  function MessageRemovals(triggers: map<string, Binding>, held: set<RoleId>, skip: Skip): set<RoleId> {
    set k | k in triggers && triggers[k].roleId in held && !skip.Matches(k, triggers[k]) :: triggers[k].roleId
  }

  function SkipAt(here: MessageId, target: MessageId, skip: Skip): Skip {
    if here == target then skip else SkipNone
  }

  /** The held roles bound on any message of the guild, except the skipped binding of message `m`. */
  function GuildRemovals(cfg: GuildConfig, held: set<RoleId>, m: MessageId, skip: Skip): set<RoleId> {
    set m', r | m' in cfg && r in MessageRemovals(cfg[m'].triggers, held, SkipAt(m', m, skip)) :: r
  }

  /** The removals the mode of an activated binding adds. */
  function ModeRemovals(cfg: GuildConfig, held: set<RoleId>, m: MessageId, mode: Mode, skip: Skip): set<RoleId>
    requires m in cfg
  {
    match mode
    case Normal => {}
    case Unique => MessageRemovals(cfg[m].triggers, held, skip)
    case Exclusive => GuildRemovals(cfg, held, m, skip)
  }

  /** Whether role `r` is bound under some key of message `m`. */
  predicate BoundOn(cfg: GuildConfig, m: MessageId, r: RoleId) {
    m in cfg && exists k :: k in cfg[m].triggers && cfg[m].triggers[k].roleId == r
  }

  /** Whether role `r` is bound under some key of some message of the guild. */
  predicate BoundInGuild(cfg: GuildConfig, r: RoleId) {
    exists m :: m in cfg && BoundOn(cfg, m, r)
  }

  /**
   * A click on the button of binding `b` on message `m` (the button carries
   * its own copy of the role id and the mode): guild check, role existence,
   * message lookup, gate, cap, mode removals, then a toggle of the target.
   */
  function ResolveButton(cfg: GuildConfig, interactionGuild: GuildId, buttonGuild: GuildId, m: MessageId,
                         b: Binding, memberRoles: set<RoleId>, guildRoles: set<RoleId>): (o: Outcome)
    ensures o.Applied? ==> o.add <= {b.roleId} && o.add !! memberRoles
    ensures o.Applied? ==> o.remove <= Held(memberRoles, guildRoles) && o.add !! o.remove
    ensures o.Applied? ==> (b.roleId in o.add || b.roleId in o.remove)
  {
    var held := Held(memberRoles, guildRoles);
    if interactionGuild != buttonGuild then Rejected(WrongGuild)
    else if b.roleId !in guildRoles then Rejected(RoleMissing)
    else if m !in cfg then Rejected(MissingMessage)
    else if !GateOpen(cfg[m].settings.requiredRoles, held) then Rejected(MissingRequiredRole)
    else if CapBlocks(cfg[m].settings, cfg[m].triggers, held, b.roleId) then Rejected(CapReached)
    else
      var others := ModeRemovals(cfg, held, m, b.mode, SkipRole(b.roleId));
      if b.roleId in held then Applied({}, others + {b.roleId}) else Applied({b.roleId}, others)
  }

  /**
   * A reaction with trigger `key` added to message `m`: bot check, binding
   * lookup, gate, cap, role existence, mode removals, then the target is added.
   */
  function ResolveReactionAdd(cfg: GuildConfig, m: MessageId, key: string, fromBot: bool,
                              memberRoles: set<RoleId>, guildRoles: set<RoleId>): (o: Outcome)
    ensures o.Applied? ==> m in cfg && key in cfg[m].triggers && o.add == {cfg[m].triggers[key].roleId}
    ensures o.Applied? ==> o.add <= guildRoles && o.remove <= Held(memberRoles, guildRoles)
  {
    var held := Held(memberRoles, guildRoles);
    if fromBot then Rejected(BotReaction)
    else if m !in cfg || key !in cfg[m].triggers then Rejected(NoBinding)
    else
      var b := cfg[m].triggers[key];
      if !GateOpen(cfg[m].settings.requiredRoles, held) then Rejected(MissingRequiredRole)
      else if CapBlocks(cfg[m].settings, cfg[m].triggers, held, b.roleId) then Rejected(CapReached)
      else if b.roleId !in guildRoles then Rejected(RoleMissing)
      else Applied({b.roleId}, ModeRemovals(cfg, held, m, b.mode, SkipKey(key)))
  }

  /** A reaction with trigger `key` removed from message `m`: the bound role is removed if held. */
  function ResolveReactionRemove(cfg: GuildConfig, m: MessageId, key: string, fromBot: bool,
                                 memberRoles: set<RoleId>, guildRoles: set<RoleId>): (o: Outcome)
    ensures o.Applied? <==> !fromBot && m in cfg && key in cfg[m].triggers
    ensures o.Applied? ==> Apply(memberRoles, o) == memberRoles - {cfg[m].triggers[key].roleId} * guildRoles
  {
    if fromBot then Rejected(BotReaction)
    else if m !in cfg || key !in cfg[m].triggers then Rejected(NoBinding)
    else
      var r := cfg[m].triggers[key].roleId;
      if r in Held(memberRoles, guildRoles) then Applied({}, {r}) else Applied({}, {})
  }

  /** `role_data_map`: the mode of the last entry of a category listing role `r`. */
  function LastMode(roles: seq<MenuRole>, r: RoleId): Mode {
    if |roles| == 0 then Normal
    else if roles[|roles| - 1].roleId == r then roles[|roles| - 1].mode
    else LastMode(roles[..|roles| - 1], r)
  }

  /** The held roles listed in any menu category of the guild, except role `r` in category `cat` of message `m`. */
  function MenuHeld(cfg: GuildConfig, held: set<RoleId>, m: MessageId, cat: string, r: RoleId): set<RoleId> {
    set m', c, x | m' in cfg && cfg[m'].settings.style == Menu && c in cfg[m'].settings.categories
                   && x in CategoryRoleIds(cfg[m'].settings.categories[c]) && x in held
                   && !(m' == m && c == cat && x == r) :: x
  }

  /** What selecting an exclusive menu role `r` clears: every other held role bound anywhere in the guild. */
  function MenuExclusiveRemovals(cfg: GuildConfig, held: set<RoleId>, m: MessageId, cat: string, r: RoleId): set<RoleId> {
    GuildRemovals(cfg, held, m, SkipNone) + MenuHeld(cfg, held, m, cat, r)
  }

  /**
   * A submission of menu category `cat` of message `m` with the role ids in
   * `selected`: each listed role that exists is added when selected and not
   * held (clearing the guild's other bound roles first when its mode is
   * exclusive), and removed when held and not selected.
   */
  function ResolveMenu(cfg: GuildConfig, interactionGuild: GuildId, menuGuild: GuildId, m: MessageId, cat: string,
                       selected: set<RoleId>, memberRoles: set<RoleId>, guildRoles: set<RoleId>): (o: Outcome)
    ensures o.Applied? ==> m in cfg && cat in cfg[m].settings.categories
    ensures o.Applied? ==> o.add <= selected * CategoryRoleIds(cfg[m].settings.categories[cat]) * guildRoles
    ensures o.Applied? ==> o.add !! memberRoles && o.remove <= Held(memberRoles, guildRoles)
  {
    if interactionGuild != menuGuild then Rejected(WrongGuild)
    else if m !in cfg then Rejected(MissingMessage)
    else if cat !in cfg[m].settings.categories then Rejected(MissingCategory)
    else
      var c := cfg[m].settings.categories[cat];
      var held := Held(memberRoles, guildRoles);
      var live := CategoryRoleIds(c) * guildRoles;
      var add := set r | r in live && r in selected && r !in held;
      var dropped := set r | r in live && r !in selected && r in held;
      var cleared := set r, x | r in add && LastMode(c.roles, r) == Exclusive
                                && x in MenuExclusiveRemovals(cfg, held, m, cat, r) :: x;
      Applied(add, dropped + cleared)
  }

  /** `max_values` of a category's select menu: one when some role is unique, else one per listed role. */
  function MenuMaxValues(c: Category): (n: nat)
    ensures (exists i :: 0 <= i < |c.roles| && c.roles[i].mode == Unique) ==> n == 1
    ensures (forall i :: 0 <= i < |c.roles| ==> c.roles[i].mode != Unique) ==> n == |c.roles|
  {
    if exists i :: 0 <= i < |c.roles| && c.roles[i].mode == Unique then 1 else |c.roles|
  }

  // ---------------------------------------------------------------------------
  // Button activations

  /** A button click is rejected exactly when one of the checks fails, in this order of precedence. */
  lemma ButtonRejectedIff(cfg: GuildConfig, ig: GuildId, bg: GuildId, m: MessageId, b: Binding,
                          memberRoles: set<RoleId>, guildRoles: set<RoleId>)
    ensures var o := ResolveButton(cfg, ig, bg, m, b, memberRoles, guildRoles);
      o.Rejected? <==>
        (ig != bg || b.roleId !in guildRoles || m !in cfg
         || !GateOpen(cfg[m].settings.requiredRoles, Held(memberRoles, guildRoles))
         || CapBlocks(cfg[m].settings, cfg[m].triggers, Held(memberRoles, guildRoles), b.roleId))
    ensures var o := ResolveButton(cfg, ig, bg, m, b, memberRoles, guildRoles);
      o.Rejected? ==> Apply(memberRoles, o) == memberRoles
  {
  }

  /** With required roles set and none of them held, a click is rejected and no role changes. */
  lemma ButtonGateRejects(cfg: GuildConfig, g: GuildId, m: MessageId, b: Binding,
                          memberRoles: set<RoleId>, guildRoles: set<RoleId>)
    requires b.roleId in guildRoles && m in cfg
    requires |cfg[m].settings.requiredRoles| > 0
    requires forall i :: 0 <= i < |cfg[m].settings.requiredRoles| ==>
               cfg[m].settings.requiredRoles[i] !in memberRoles || cfg[m].settings.requiredRoles[i] !in guildRoles
    ensures ResolveButton(cfg, g, g, m, b, memberRoles, guildRoles) == Rejected(MissingRequiredRole)
    ensures Apply(memberRoles, ResolveButton(cfg, g, g, m, b, memberRoles, guildRoles)) == memberRoles
  {
  }

  /** With a truthy cap reached and the target not held, a click that passed the gate is rejected. */
  lemma ButtonCapRejects(cfg: GuildConfig, g: GuildId, m: MessageId, b: Binding,
                         memberRoles: set<RoleId>, guildRoles: set<RoleId>)
    requires b.roleId in guildRoles && m in cfg
    requires GateOpen(cfg[m].settings.requiredRoles, Held(memberRoles, guildRoles))
    requires cfg[m].settings.maxRoles != 0
    requires BoundHeldCount(cfg[m].triggers, Held(memberRoles, guildRoles)) >= cfg[m].settings.maxRoles
    requires b.roleId !in memberRoles
    ensures ResolveButton(cfg, g, g, m, b, memberRoles, guildRoles) == Rejected(CapReached)
  {
  }

  /** The cap never stops a held target from being toggled off, and a max_roles of 0 is no cap at all. */
  lemma ButtonCapSparesHeldTarget(cfg: GuildConfig, g: GuildId, m: MessageId, b: Binding,
                                  memberRoles: set<RoleId>, guildRoles: set<RoleId>)
    requires b.roleId in guildRoles && m in cfg
    requires GateOpen(cfg[m].settings.requiredRoles, Held(memberRoles, guildRoles))
    requires b.roleId in memberRoles || cfg[m].settings.maxRoles == 0
    ensures ResolveButton(cfg, g, g, m, b, memberRoles, guildRoles).Applied?
    ensures b.roleId in memberRoles ==> b.roleId !in Apply(memberRoles, ResolveButton(cfg, g, g, m, b, memberRoles, guildRoles))
  {
  }

  /** The toggle: an applied click removes a held target and adds an unheld one. */
  lemma ButtonToggles(cfg: GuildConfig, ig: GuildId, bg: GuildId, m: MessageId, b: Binding,
                      memberRoles: set<RoleId>, guildRoles: set<RoleId>)
    requires ResolveButton(cfg, ig, bg, m, b, memberRoles, guildRoles).Applied?
    ensures var after := Apply(memberRoles, ResolveButton(cfg, ig, bg, m, b, memberRoles, guildRoles));
      (b.roleId in memberRoles ==> b.roleId !in after) && (b.roleId !in memberRoles ==> b.roleId in after)
  {
  }

  /**
   * Two clicks on a normal-mode button restore the member's roles.  When the
   * first click adds the target the second is never rejected; when it removes
   * the target the second must pass the cap again.
   */
  lemma NormalClicksRestore(cfg: GuildConfig, g: GuildId, m: MessageId, b: Binding,
                            memberRoles: set<RoleId>, guildRoles: set<RoleId>)
    requires b.mode == Normal
    requires ResolveButton(cfg, g, g, m, b, memberRoles, guildRoles).Applied?
    requires var once := Apply(memberRoles, ResolveButton(cfg, g, g, m, b, memberRoles, guildRoles));
      b.roleId in memberRoles ==> ResolveButton(cfg, g, g, m, b, once, guildRoles).Applied?
    ensures var once := Apply(memberRoles, ResolveButton(cfg, g, g, m, b, memberRoles, guildRoles));
      ResolveButton(cfg, g, g, m, b, once, guildRoles).Applied?
      && Apply(once, ResolveButton(cfg, g, g, m, b, once, guildRoles)) == memberRoles
  {
    var held := Held(memberRoles, guildRoles);
    var once := Apply(memberRoles, ResolveButton(cfg, g, g, m, b, memberRoles, guildRoles));
    if b.roleId !in memberRoles {
      assert once == memberRoles + {b.roleId};
      var held' := Held(once, guildRoles);
      assert held' == held + {b.roleId};
      var req := cfg[m].settings.requiredRoles;
      if |req| > 0 {
        var i :| 0 <= i < |req| && req[i] in held;
        assert req[i] in held';
      }
      assert !CapBlocks(cfg[m].settings, cfg[m].triggers, held', b.roleId);
    } else {
      assert once == memberRoles - {b.roleId};
    }
  }

  /**
   * Unique mode: every other held role bound on the same message is removed,
   * and a role bound on no key of that message, other than the target, is untouched.
   */
  lemma ButtonUniqueEffect(cfg: GuildConfig, ig: GuildId, bg: GuildId, m: MessageId, b: Binding,
                           memberRoles: set<RoleId>, guildRoles: set<RoleId>)
    requires b.mode == Unique
    requires ResolveButton(cfg, ig, bg, m, b, memberRoles, guildRoles).Applied?
    ensures var after := Apply(memberRoles, ResolveButton(cfg, ig, bg, m, b, memberRoles, guildRoles));
      forall k :: (k in cfg[m].triggers && cfg[m].triggers[k].roleId != b.roleId
                   && cfg[m].triggers[k].roleId in guildRoles) ==> cfg[m].triggers[k].roleId !in after
    ensures var after := Apply(memberRoles, ResolveButton(cfg, ig, bg, m, b, memberRoles, guildRoles));
      forall x :: x != b.roleId && !BoundOn(cfg, m, x) ==> (x in after <==> x in memberRoles)
  {
  }

  /**
   * Exclusive mode: every held role bound anywhere in the guild, other than
   * the target, is removed, and a role bound nowhere in the guild, other than
   * the target, is untouched.
   */
  lemma ButtonExclusiveEffect(cfg: GuildConfig, ig: GuildId, bg: GuildId, m: MessageId, b: Binding,
                              memberRoles: set<RoleId>, guildRoles: set<RoleId>)
    requires b.mode == Exclusive
    requires ResolveButton(cfg, ig, bg, m, b, memberRoles, guildRoles).Applied?
    ensures var after := Apply(memberRoles, ResolveButton(cfg, ig, bg, m, b, memberRoles, guildRoles));
      forall m', k :: (m' in cfg && k in cfg[m'].triggers && cfg[m'].triggers[k].roleId != b.roleId
                       && cfg[m'].triggers[k].roleId in guildRoles) ==> cfg[m'].triggers[k].roleId !in after
    ensures var after := Apply(memberRoles, ResolveButton(cfg, ig, bg, m, b, memberRoles, guildRoles));
      forall x :: x != b.roleId && !BoundInGuild(cfg, x) ==> (x in after <==> x in memberRoles)
  {
    var held := Held(memberRoles, guildRoles);
    var o := ResolveButton(cfg, ig, bg, m, b, memberRoles, guildRoles);
    var after := Apply(memberRoles, o);
    forall m', k | m' in cfg && k in cfg[m'].triggers && cfg[m'].triggers[k].roleId != b.roleId
                   && cfg[m'].triggers[k].roleId in guildRoles
      ensures cfg[m'].triggers[k].roleId !in after
    {
      var r := cfg[m'].triggers[k].roleId;
      if r in held {
        assert r in MessageRemovals(cfg[m'].triggers, held, SkipAt(m', m, SkipRole(b.roleId)));
        assert r in GuildRemovals(cfg, held, m, SkipRole(b.roleId));
      }
    }
  }

  // ---------------------------------------------------------------------------
  // Reaction activations

  /** A reaction is rejected exactly when one of the checks fails; otherwise the target ends up held. */
  lemma ReactionAddRejectedIff(cfg: GuildConfig, m: MessageId, key: string, fromBot: bool,
                               memberRoles: set<RoleId>, guildRoles: set<RoleId>)
    ensures var o := ResolveReactionAdd(cfg, m, key, fromBot, memberRoles, guildRoles);
      o.Rejected? <==>
        (fromBot || m !in cfg || key !in cfg[m].triggers
         || !GateOpen(cfg[m].settings.requiredRoles, Held(memberRoles, guildRoles))
         || CapBlocks(cfg[m].settings, cfg[m].triggers, Held(memberRoles, guildRoles), cfg[m].triggers[key].roleId)
         || cfg[m].triggers[key].roleId !in guildRoles)
    ensures var o := ResolveReactionAdd(cfg, m, key, fromBot, memberRoles, guildRoles);
      (o.Rejected? ==> Apply(memberRoles, o) == memberRoles)
      && (o.Applied? ==> cfg[m].triggers[key].roleId in Apply(memberRoles, o))
  {
  }

  /**
   * Unique mode on a reaction: every other key's held role on the same message
   * is removed (unless it is the target itself), and roles bound on no key of
   * that message are untouched.
   */
  lemma ReactionUniqueEffect(cfg: GuildConfig, m: MessageId, key: string, fromBot: bool,
                             memberRoles: set<RoleId>, guildRoles: set<RoleId>)
    requires ResolveReactionAdd(cfg, m, key, fromBot, memberRoles, guildRoles).Applied?
    requires cfg[m].triggers[key].mode == Unique
    ensures var after := Apply(memberRoles, ResolveReactionAdd(cfg, m, key, fromBot, memberRoles, guildRoles));
      forall k :: (k in cfg[m].triggers && k != key && cfg[m].triggers[k].roleId != cfg[m].triggers[key].roleId
                   && cfg[m].triggers[k].roleId in guildRoles) ==> cfg[m].triggers[k].roleId !in after
    ensures var after := Apply(memberRoles, ResolveReactionAdd(cfg, m, key, fromBot, memberRoles, guildRoles));
      forall x :: !BoundOn(cfg, m, x) ==> (x in after <==> x in memberRoles)
  {
  }

  /**
   * Exclusive mode on a reaction: every held role bound anywhere in the guild
   * (other than the target) is removed, and roles bound nowhere are untouched.
   */
  lemma ReactionExclusiveEffect(cfg: GuildConfig, m: MessageId, key: string, fromBot: bool,
                                memberRoles: set<RoleId>, guildRoles: set<RoleId>)
    requires ResolveReactionAdd(cfg, m, key, fromBot, memberRoles, guildRoles).Applied?
    requires cfg[m].triggers[key].mode == Exclusive
    ensures var after := Apply(memberRoles, ResolveReactionAdd(cfg, m, key, fromBot, memberRoles, guildRoles));
      forall m', k :: (m' in cfg && k in cfg[m'].triggers && cfg[m'].triggers[k].roleId != cfg[m].triggers[key].roleId
                       && cfg[m'].triggers[k].roleId in guildRoles) ==> cfg[m'].triggers[k].roleId !in after
    ensures var after := Apply(memberRoles, ResolveReactionAdd(cfg, m, key, fromBot, memberRoles, guildRoles));
      forall x :: !BoundInGuild(cfg, x) ==> (x in after <==> x in memberRoles)
  {
    var held := Held(memberRoles, guildRoles);
    var target := cfg[m].triggers[key].roleId;
    var o := ResolveReactionAdd(cfg, m, key, fromBot, memberRoles, guildRoles);
    var after := Apply(memberRoles, o);
    forall m', k | m' in cfg && k in cfg[m'].triggers && cfg[m'].triggers[k].roleId != target
                   && cfg[m'].triggers[k].roleId in guildRoles
      ensures cfg[m'].triggers[k].roleId !in after
    {
      var r := cfg[m'].triggers[k].roleId;
      if r in held {
        assert r in MessageRemovals(cfg[m'].triggers, held, SkipAt(m', m, SkipKey(key)));
        assert r in GuildRemovals(cfg, held, m, SkipKey(key));
      }
    }
  }

  // ---------------------------------------------------------------------------
  // Menu selections

  /**
   * Each role of the submitted category that exists: selected and unheld ends
   * up held; unselected and held ends up removed; unselected and unheld stays
   * unheld; selected and held stays held unless an exclusive role added in
   * the same submission clears it.
   */
  lemma MenuSelectionEffect(cfg: GuildConfig, ig: GuildId, mg: GuildId, m: MessageId, cat: string,
                            selected: set<RoleId>, memberRoles: set<RoleId>, guildRoles: set<RoleId>, r: RoleId)
    requires ResolveMenu(cfg, ig, mg, m, cat, selected, memberRoles, guildRoles).Applied?
    requires r in CategoryRoleIds(cfg[m].settings.categories[cat]) && r in guildRoles
    ensures var o := ResolveMenu(cfg, ig, mg, m, cat, selected, memberRoles, guildRoles);
      var after := Apply(memberRoles, o);
      && (r in selected && r !in memberRoles ==> r in after)
      && (r !in selected ==> r !in after)
      && (r in selected && r in memberRoles && (forall a :: a in o.add ==> LastMode(cfg[m].settings.categories[cat].roles, a) != Exclusive)
          ==> r in after)
  {
  }

  /** Without an exclusive role among the additions, a menu submission leaves every role outside its category alone. */
  lemma MenuKeepsOtherRoles(cfg: GuildConfig, ig: GuildId, mg: GuildId, m: MessageId, cat: string,
                            selected: set<RoleId>, memberRoles: set<RoleId>, guildRoles: set<RoleId>)
    requires ResolveMenu(cfg, ig, mg, m, cat, selected, memberRoles, guildRoles).Applied?
    requires forall i :: 0 <= i < |cfg[m].settings.categories[cat].roles| ==>
               cfg[m].settings.categories[cat].roles[i].mode != Exclusive
    ensures var after := Apply(memberRoles, ResolveMenu(cfg, ig, mg, m, cat, selected, memberRoles, guildRoles));
      forall x :: x !in CategoryRoleIds(cfg[m].settings.categories[cat]) ==> (x in after <==> x in memberRoles)
  {
    var c := cfg[m].settings.categories[cat];
    var o := ResolveMenu(cfg, ig, mg, m, cat, selected, memberRoles, guildRoles);
    forall a | a in o.add
      ensures LastMode(c.roles, a) != Exclusive
    {
      LastModeIsListed(c.roles, a);
    }
  }

  /** The mode `role_data_map` keeps for a role is the mode of one of its entries (Normal when none). */
  lemma {:induction false} LastModeIsListed(roles: seq<MenuRole>, r: RoleId)
    ensures LastMode(roles, r) == Normal || exists i :: 0 <= i < |roles| && roles[i].roleId == r && roles[i].mode == LastMode(roles, r)
  {
    if |roles| > 0 && roles[|roles| - 1].roleId != r {
      LastModeIsListed(roles[..|roles| - 1], r);
      if LastMode(roles, r) != Normal {
        var i :| 0 <= i < |roles| - 1 && roles[..|roles| - 1][i].roleId == r
                 && roles[..|roles| - 1][i].mode == LastMode(roles, r);
        assert roles[i] == roles[..|roles| - 1][i];
      }
    }
  }

  /**
   * An exclusive role added by a menu submission clears every held role the
   * guild binds anywhere else: under a trigger key of any message, or in any
   * category of any menu.
   */
  lemma MenuExclusiveClears(cfg: GuildConfig, ig: GuildId, mg: GuildId, m: MessageId, cat: string,
                            selected: set<RoleId>, memberRoles: set<RoleId>, guildRoles: set<RoleId>, r: RoleId)
    requires ResolveMenu(cfg, ig, mg, m, cat, selected, memberRoles, guildRoles).Applied?
    requires r in ResolveMenu(cfg, ig, mg, m, cat, selected, memberRoles, guildRoles).add
    requires LastMode(cfg[m].settings.categories[cat].roles, r) == Exclusive
    ensures var after := Apply(memberRoles, ResolveMenu(cfg, ig, mg, m, cat, selected, memberRoles, guildRoles));
      && r in after
      && (forall m', k :: m' in cfg && k in cfg[m'].triggers && cfg[m'].triggers[k].roleId in Held(memberRoles, guildRoles)
           ==> cfg[m'].triggers[k].roleId !in after)
      && (forall m', c, x :: m' in cfg && cfg[m'].settings.style == Menu && c in cfg[m'].settings.categories
           && x in CategoryRoleIds(cfg[m'].settings.categories[c]) && x in Held(memberRoles, guildRoles)
           ==> x !in after)
  {
    var held := Held(memberRoles, guildRoles);
    var o := ResolveMenu(cfg, ig, mg, m, cat, selected, memberRoles, guildRoles);
    var after := Apply(memberRoles, o);
    assert r !in held;
    forall m', k | m' in cfg && k in cfg[m'].triggers && cfg[m'].triggers[k].roleId in held
      ensures cfg[m'].triggers[k].roleId !in after
    {
      var x := cfg[m'].triggers[k].roleId;
      assert x in MessageRemovals(cfg[m'].triggers, held, SkipAt(m', m, SkipNone));
      assert x in MenuExclusiveRemovals(cfg, held, m, cat, r);
    }
    forall m', c, x | m' in cfg && cfg[m'].settings.style == Menu && c in cfg[m'].settings.categories
                      && x in CategoryRoleIds(cfg[m'].settings.categories[c]) && x in held
      ensures x !in after
    {
      assert x != r;
      assert x in MenuHeld(cfg, held, m, cat, r);
      assert x in MenuExclusiveRemovals(cfg, held, m, cat, r);
    }
  }

  /** A category with a unique role offers a single choice, so a submission adds at most one role. */
  lemma MenuUniqueAddsAtMostOne(cfg: GuildConfig, ig: GuildId, mg: GuildId, m: MessageId, cat: string,
                                selected: set<RoleId>, memberRoles: set<RoleId>, guildRoles: set<RoleId>)
    requires m in cfg && cat in cfg[m].settings.categories
    requires exists i :: 0 <= i < |cfg[m].settings.categories[cat].roles| && cfg[m].settings.categories[cat].roles[i].mode == Unique
    requires |selected| <= MenuMaxValues(cfg[m].settings.categories[cat])
    ensures var o := ResolveMenu(cfg, ig, mg, m, cat, selected, memberRoles, guildRoles);
      o.Applied? ==> |o.add| <= 1
  {
    var o := ResolveMenu(cfg, ig, mg, m, cat, selected, memberRoles, guildRoles);
    if o.Applied? {
      assert o.add <= selected;
      SubsetCardinality(o.add, selected);
    }
  }

  /** The select menu allows a single choice exactly when some role is unique or only one role is listed. */
  lemma MenuSingleChoiceIff(c: Category)
    ensures MenuMaxValues(c) == 1 <==>
      ((exists i :: 0 <= i < |c.roles| && c.roles[i].mode == Unique) || |c.roles| == 1)
  {
  }

  lemma SubsetCardinality<T>(a: set<T>, b: set<T>)
    requires a <= b
    ensures |a| <= |b|
  {
    assert b == a + (b - a);
  }
}

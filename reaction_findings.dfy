/**
 * Four places where the reaction-role code does something other than what
 * it evidently means to do.  Each is written out here as the code behaves,
 * with a concrete input on which it parts from the intended rule; the rest
 * of the model uses the intended rule (`ResolveButton`,
 * `ResolveReactionAdd`, `ReactionRoles.DropMissing`, `CleanedGuild`).
 */
module ReactionFindings {
  import opened Common
  import opened ReactionConfig
  import opened ReactionResolve
  import opened ReactionEdits
  import opened ReactionRoles

  // ---------------------------------------------------------------------------
  // The button cap loop rebinds `role`.

  /** The role the counting loop leaves in `role`: the last binding's role, or `None` when that role is gone. */
  function LoopRole(triggers: map<string, Binding>, order: seq<string>, target: RoleId, guildRoles: set<RoleId>): Option<RoleId>
    requires forall i :: 0 <= i < |order| ==> order[i] in triggers
  {
    if |order| == 0 then Some(target)
    else
      var last := triggers[order[|order| - 1]].roleId;
      if last in guildRoles then Some(last) else None
  }

  /** `order` lists every trigger key of the message exactly once: an iteration order of the dict. */
  predicate KeyOrder(triggers: map<string, Binding>, order: seq<string>) {
    NoDuplicates(order)
    && (forall i :: 0 <= i < |order| ==> order[i] in triggers)
    && (forall k :: k in triggers ==> k in order)
  }

  /**
   * The button callback as written.  When `max_roles` is set, the cap loop
   * reuses the variable holding the target role, so the cap's "target not
   * held" test and the final toggle act on the role of the last binding in
   * the message's key order `order`, which lists each trigger key once.  When that role is gone, adding it
   * fails after the mode removals have been made.  With no cap set, it
   * agrees with the intended rule.
   */
  function AsWrittenButton(cfg: GuildConfig, interactionGuild: GuildId, buttonGuild: GuildId, m: MessageId,
                           b: Binding, order: seq<string>, memberRoles: set<RoleId>, guildRoles: set<RoleId>): (o: Outcome)
    requires m in cfg ==> KeyOrder(cfg[m].triggers, order)
    ensures m in cfg && (cfg[m].settings.maxRoles == 0 || cfg[m].triggers == map[]) ==>
              o == ResolveButton(cfg, interactionGuild, buttonGuild, m, b, memberRoles, guildRoles)
    ensures m !in cfg ==> o == ResolveButton(cfg, interactionGuild, buttonGuild, m, b, memberRoles, guildRoles)
  {
    var held := Held(memberRoles, guildRoles);
    if interactionGuild != buttonGuild then Rejected(WrongGuild)
    else if b.roleId !in guildRoles then Rejected(RoleMissing)
    else if m !in cfg then Rejected(MissingMessage)
    else if !GateOpen(cfg[m].settings.requiredRoles, held) then Rejected(MissingRequiredRole)
    else
      var s := cfg[m].settings;
      var role := if s.maxRoles != 0 then LoopRole(cfg[m].triggers, order, b.roleId, guildRoles) else Some(b.roleId);
      var roleHeld := role.Some? && role.value in held;
      if s.maxRoles != 0 && BoundHeldCount(cfg[m].triggers, held) >= s.maxRoles && !roleHeld then Rejected(CapReached)
      else
        var others := ModeRemovals(cfg, held, m, b.mode, SkipRole(b.roleId));
        match role
        case None => Applied({}, others)
        case Some(r) => if r in held then Applied({}, others + {r}) else Applied({r}, others)
  }

  /** A message with two buttons and a cap of five: clicking the first button hands out the second button's role. */
  lemma ButtonRebindingCounterexample()
    ensures var cfg := map[1 := RoleMessage(Settings([], 5, Buttons, map[]),
                                             map["a" := Binding(10, Normal), "b" := Binding(20, Normal)])];
      && AsWrittenButton(cfg, 7, 7, 1, Binding(10, Normal), ["a", "b"], {}, {10, 20}) == Applied({20}, {})
      && ResolveButton(cfg, 7, 7, 1, Binding(10, Normal), {}, {10, 20}) == Applied({10}, {})
  {
    var cfg := map[1 := RoleMessage(Settings([], 5, Buttons, map[]),
                                    map["a" := Binding(10, Normal), "b" := Binding(20, Normal)])];
    assert BoundHeldKeys(cfg[1].triggers, {}) == {};
  }

  // ---------------------------------------------------------------------------
  // The reaction cap ignores whether the target is already held.

  /**
   * The reaction-add handler as written: the cap rejects once the member
   * holds `max_roles` bound roles of the message, even when the reacted
   * role is one of them.  It only ever rejects more than the intended rule.
   */
  function AsWrittenReactionAdd(cfg: GuildConfig, m: MessageId, key: string, fromBot: bool,
                                memberRoles: set<RoleId>, guildRoles: set<RoleId>): (o: Outcome)
    ensures o != ResolveReactionAdd(cfg, m, key, fromBot, memberRoles, guildRoles) ==> o == Rejected(CapReached)
    ensures o.Applied? ==> o == ResolveReactionAdd(cfg, m, key, fromBot, memberRoles, guildRoles)
  {
    var held := Held(memberRoles, guildRoles);
    if fromBot then Rejected(BotReaction)
    else if m !in cfg || key !in cfg[m].triggers then Rejected(NoBinding)
    else
      var b := cfg[m].triggers[key];
      var s := cfg[m].settings;
      if !GateOpen(s.requiredRoles, held) then Rejected(MissingRequiredRole)
      else if s.maxRoles != 0 && BoundHeldCount(cfg[m].triggers, held) >= s.maxRoles then Rejected(CapReached)
      else if b.roleId !in guildRoles then Rejected(RoleMissing)
      else Applied({b.roleId}, ModeRemovals(cfg, held, m, b.mode, SkipKey(key)))
  }

  /** A cap of one and a member who already holds the bound role: the reaction is refused, though it changes nothing. */
  lemma ReactionCapCounterexample()
    ensures var cfg := map[1 := RoleMessage(Settings([], 1, Reactions, map[]), map["a" := Binding(10, Normal)])];
      && AsWrittenReactionAdd(cfg, 1, "a", false, {10}, {10}) == Rejected(CapReached)
      && ResolveReactionAdd(cfg, 1, "a", false, {10}, {10}) == Applied({10}, {})
  {
    var cfg := map[1 := RoleMessage(Settings([], 1, Reactions, map[]), map["a" := Binding(10, Normal)])];
    assert Held({10}, {10}) == {10};
    assert BoundHeldKeys(cfg[1].triggers, {10}) == {"a"};
    assert BoundHeldCount(cfg[1].triggers, {10}) == 1;
  }

  // ---------------------------------------------------------------------------
  // The cleanup report does not count the bindings of deleted messages.

  /** The bindings of found messages whose role is gone: the only ones the code adds to `removed_roles`. */
  function DeadBindings(cfg: GuildConfig, found: set<MessageId>, guildRoles: set<RoleId>): set<(MessageId, string)> {
    set m, k | m in cfg && m in found && k in cfg[m].triggers && cfg[m].triggers[k].roleId !in guildRoles :: (m, k)
  }

  /**
   * `removed_roles` as written.  The report's remaining count is
   * `initial_roles - removed_roles`, which is never below the bindings that
   * do remain: it overstates them by the bindings of the deleted messages.
   */
  function AsWrittenRemovedRoles(cfg: GuildConfig, found: set<MessageId>, guildRoles: set<RoleId>): (n: nat)
    ensures n + |BindingKeys(CleanedGuild(cfg, found, guildRoles))| <= |BindingKeys(cfg)|
  {
    var dead := DeadBindings(cfg, found, guildRoles);
    var live := BindingKeys(CleanedGuild(cfg, found, guildRoles));
    forall p | p in live ensures p in BindingKeys(cfg) && p !in dead {
      var m, k :| m in CleanedGuild(cfg, found, guildRoles) && k in CleanedGuild(cfg, found, guildRoles)[m].triggers && p == (m, k);
    }
    assert dead !! live;
    assert dead + live <= BindingKeys(cfg);
    SubsetCardinality(dead + live, BindingKeys(cfg));
    |dead|
  }

  /** One unfound message with one binding: the report says one role remains, the cleaned guild has none. */
  lemma CleanupReportCounterexample()
    ensures var cfg := map[1 := RoleMessage(NewSettings(Reactions), map["a" := Binding(10, Normal)])];
      && |BindingKeys(cfg)| - AsWrittenRemovedRoles(cfg, {}, {10}) == 1
      && |BindingKeys(CleanedGuild(cfg, {}, {10}))| == 0
  {
    var cfg := map[1 := RoleMessage(NewSettings(Reactions), map["a" := Binding(10, Normal)])];
    assert BindingKeys(cfg) == {(1, "a")};
    assert DeadBindings(cfg, {}, {10}) == {};
    assert CleanedGuild(cfg, {}, {10}) == map[];
  }

  // ---------------------------------------------------------------------------
  // Cleanup deletes every menu message.

  /**
   * The cleaned guild as written: the "remove empty messages" test deletes a
   * message whose only key is `"settings"`, which is every menu message, since
   * menus keep their roles inside the settings.
   */
  function AsWrittenCleaned(cfg: GuildConfig, found: set<MessageId>, guildRoles: set<RoleId>): (clean: GuildConfig)
    ensures forall m :: m in clean ==> m in CleanedGuild(cfg, found, guildRoles) && clean[m] == CleanedGuild(cfg, found, guildRoles)[m]
    ensures forall m :: m in CleanedGuild(cfg, found, guildRoles) && m !in clean ==>
              HasMenuRoles(cfg[m]) && LiveTriggers(cfg[m].triggers, guildRoles) == map[]
  {
    map m | m in cfg && m in found && LiveTriggers(cfg[m].triggers, guildRoles) != map[]
      :: cfg[m].(triggers := LiveTriggers(cfg[m].triggers, guildRoles))
  }

  /** A found menu message with one category: cleanup as written deletes it, the intended cleanup keeps it. */
  lemma MenuCleanupCounterexample()
    ensures var cfg := map[1 := RoleMessage(Settings([], 0, Menu, map["colours" := Category("Colours", None, None, [MenuRole(10, None, None, Normal)])]), map[])];
      && 1 !in AsWrittenCleaned(cfg, {1}, {10})
      && 1 in CleanedGuild(cfg, {1}, {10})
  {
    var cfg := map[1 := RoleMessage(Settings([], 0, Menu, map["colours" := Category("Colours", None, None, [MenuRole(10, None, None, Normal)])]), map[])];
    assert "colours" in cfg[1].settings.categories;
    assert HasMenuRoles(cfg[1]);
  }
}

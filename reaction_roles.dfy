/**
 * The reaction-role cog: the in-memory configuration map and the commands
 * and event handlers that read or edit it in place.  Discord itself is
 * abstracted: the member's roles, the guild's existing roles, the messages
 * that can still be fetched and the bot's top role position are inputs, and
 * the role changes a handler makes are returned as an `Outcome`.
 */
module ReactionRoles {
  import opened Common
  import opened ReactionConfig
  import opened ReactionResolve
  import opened ReactionScan
  import opened ReactionEdits

  datatype EditOutcome =
    | MenuNotFound       // no entry for the message in this guild
    | NotAMenu           // the message is not an advanced role menu
    | CategoryExists     // a category with the same id is already there
    | CategoryNotFound
    | RoleTooHigh        // the role is at or above the bot's top role
    | RoleAlreadyListed  // some category of the menu already lists the role
    | RoleNotListed      // no category of the menu lists the role
    | Edited

  /** The report of `reaction_cleanup`; the remaining counts are initial minus removed. */
  datatype CleanupReport =
    | NothingToClean
    | Report(initialMessages: nat, initialRoles: nat, removedMessages: nat, removedRoles: nat)
  {
    function RemainingMessages(): int
      requires Report?
    {
      initialMessages - removedMessages
    }

    function RemainingRoles(): int
      requires Report?
    {
      initialRoles - removedRoles
    }
  }

  /** A message entry keeps its menu roles listed at most once and its required roles without repeats. */
  predicate MessageValid(msg: RoleMessage) {
    MenuRolesUnique(msg.settings) && NoDuplicates(msg.settings.requiredRoles)
  }

  predicate ConfigValid(config: map<GuildId, GuildConfig>) {
    forall g, m :: g in config && m in config[g] ==> MessageValid(config[g][m])
  }

  /** The entry of message `m` of guild `g`, if both exist. */
  function MessageAt(config: map<GuildId, GuildConfig>, g: GuildId, m: MessageId): (r: Option<RoleMessage>)
    ensures r.Some? <==> g in config && m in config[g]
    ensures r.Some? ==> r.value == config[g][m]
  {
    if g in config && m in config[g] then Some(config[g][m]) else None
  }

  /** `reaction_roles[g][m] = msg`, creating the guild entry when it is missing. */
  function WithMessage(config: map<GuildId, GuildConfig>, g: GuildId, m: MessageId, msg: RoleMessage)
    : (r: map<GuildId, GuildConfig>)
    ensures r.Keys == config.Keys + {g}
    ensures MessageAt(r, g, m) == Some(msg)
    ensures forall g', m' :: (g', m') != (g, m) ==> MessageAt(r, g', m') == MessageAt(config, g', m')
  {
    config[g := (if g in config then config[g] else map[])[m := msg]]
  }

  lemma WithMessageKeepsValid(config: map<GuildId, GuildConfig>, g: GuildId, m: MessageId, msg: RoleMessage)
    requires ConfigValid(config) && MessageValid(msg)
    ensures ConfigValid(WithMessage(config, g, m, msg))
  {
    var r := WithMessage(config, g, m, msg);
    forall g', m' | g' in r && m' in r[g'] ensures MessageValid(r[g'][m']) {
      if (g', m') != (g, m) {
        assert MessageAt(r, g', m') == MessageAt(config, g', m');
      }
    }
  }

  /** The `add_menu_role` scan: does any category list the role? */
  method ListedAnywhere(s: Settings, r: RoleId) returns (listed: bool)
    ensures listed == InSomeCategory(s, r)
  {
    listed := false;
    var todo := s.categories.Keys;
    while todo != {} && !listed
      invariant todo <= s.categories.Keys
      invariant listed ==> InSomeCategory(s, r)
      invariant !listed ==> forall c :: c in s.categories && c !in todo ==> r !in CategoryRoleIds(s.categories[c])
      decreases |todo|
    {
      ghost var pick := ElementOf(todo);
      var c :| c in todo;
      var i := FirstListed(s.categories[c].roles, r);
      listed := i.Some?;
      todo := todo - {c};
    }
  }

  /** The `enumerate` scan of one category: the first entry listing the role. */
  method FirstListed(roles: seq<MenuRole>, r: RoleId) returns (i: Option<nat>)
    ensures i == FirstIndexOf(roles, r)
  {
    var j := 0;
    while j < |roles|
      invariant 0 <= j <= |roles|
      invariant forall k :: 0 <= k < j ==> roles[k].roleId != r
    {
      if roles[j].roleId == r {
        FirstIndexUnique(roles, r, j);
        return Some(j);
      }
      j := j + 1;
    }
    assert r !in (set k | 0 <= k < |roles| :: roles[k].roleId);
    return None;
  }

  lemma FirstIndexUnique(roles: seq<MenuRole>, r: RoleId, j: nat)
    requires j < |roles| && roles[j].roleId == r
    requires forall k :: 0 <= k < j ==> roles[k].roleId != r
    ensures FirstIndexOf(roles, r) == Some(j)
  {
    assert r in (set k | 0 <= k < |roles| :: roles[k].roleId);
  }

  /** The `remove_menu_role` scan: some category listing the role, with the first entry listing it. */
  method FindListed(s: Settings, r: RoleId) returns (hit: Option<(string, nat)>)
    ensures hit.None? <==> !InSomeCategory(s, r)
    ensures hit.Some? ==> hit.value.0 in s.categories && FirstIndexOf(s.categories[hit.value.0].roles, r) == Some(hit.value.1)
  {
    var todo := s.categories.Keys;
    while todo != {}
      invariant todo <= s.categories.Keys
      invariant forall c :: c in s.categories && c !in todo ==> r !in CategoryRoleIds(s.categories[c])
      decreases |todo|
    {
      ghost var pick := ElementOf(todo);
      var c :| c in todo;
      var i := FirstListed(s.categories[c].roles, r);
      if i.Some? {
        return Some((c, i.value));
      }
      todo := todo - {c};
    }
    return None;
  }

  /** The `initial_messages` / `initial_roles` loop of `reaction_cleanup`. */
  method CountEntries(cfg: GuildConfig) returns (messages: nat, roles: nat)
    ensures messages == |cfg| && roles == |BindingKeys(cfg)|
  {
    messages, roles := 0, 0;
    var todo := cfg.Keys;
    ghost var rest := cfg;
    while todo != {}
      invariant rest.Keys == todo && todo <= cfg.Keys
      invariant forall m :: m in rest ==> rest[m] == cfg[m]
      invariant messages + |rest.Keys| == |cfg.Keys|
      invariant roles + |BindingKeys(rest)| == |BindingKeys(cfg)|
      decreases |todo|
    {
      ghost var pick := ElementOf(todo);
      var m :| m in todo;
      BindingCount(rest, m);
      assert (rest - {m}).Keys == rest.Keys - {m};
      rest := rest - {m};
      messages := messages + 1;
      roles := roles + |cfg[m].triggers|;
      todo := todo - {m};
    }
    assert BindingKeys(rest) == {};
    assert |cfg| == |cfg.Keys|;
  }

  /** The bindings of message `m` as (message, key) pairs. */
  function PairsOf(m: MessageId, keys: set<string>): set<(MessageId, string)> {
    set k | k in keys :: (m, k)
  }

  lemma {:induction false} PairsOfCard(m: MessageId, keys: set<string>)
    ensures |PairsOf(m, keys)| == |keys|
    decreases |keys|
  {
    if keys != {} {
      var k := ElementOf(keys);
      PairsOfCard(m, keys - {k});
      assert PairsOf(m, keys) == PairsOf(m, keys - {k}) + {(m, k)};
    }
  }

  /** A guild's bindings are those of message `m` and those of the other messages. */
  lemma BindingCount(cfg: GuildConfig, m: MessageId)
    requires m in cfg
    ensures |BindingKeys(cfg)| == |BindingKeys(cfg - {m})| + |cfg[m].triggers|
  {
    var rest := BindingKeys(cfg - {m});
    var mine := PairsOf(m, cfg[m].triggers.Keys);
    forall p | p in BindingKeys(cfg) ensures p in rest + mine {
      var m', k :| m' in cfg && k in cfg[m'].triggers && p == (m', k);
      if m' != m {
        assert m' in cfg - {m};
      }
    }
    forall p | p in rest + mine ensures p in BindingKeys(cfg) {
      if p in rest {
        var m', k :| m' in cfg - {m} && k in (cfg - {m})[m'].triggers && p == (m', k);
      }
    }
    assert BindingKeys(cfg) == rest + mine;
    assert rest !! mine;
    PairsOfCard(m, cfg[m].triggers.Keys);
  }

  /** Replacing the bindings of one message changes the binding count by the difference. */
  lemma ReplaceCount(cfg: GuildConfig, m: MessageId, triggers: map<string, Binding>)
    requires m in cfg
    ensures |BindingKeys(cfg[m := cfg[m].(triggers := triggers)])| + |cfg[m].triggers|
         == |BindingKeys(cfg)| + |triggers|
  {
    var after := cfg[m := cfg[m].(triggers := triggers)];
    assert after - {m} == cfg - {m};
    BindingCount(cfg, m);
    BindingCount(after, m);
  }

  /** The inner loop of the role check: drops the bindings whose role is gone. */
  method DropDeadBindings(triggers: map<string, Binding>, guildRoles: set<RoleId>) returns (live: map<string, Binding>, dropped: nat)
    ensures live == LiveTriggers(triggers, guildRoles)
    ensures dropped + |live| == |triggers|
  {
    live := triggers;
    dropped := 0;
    var todo := triggers.Keys;
    while todo != {}
      invariant todo <= triggers.Keys
      invariant live.Keys <= triggers.Keys
      invariant forall k :: k in live ==> live[k] == triggers[k]
      invariant forall k :: k in triggers ==> (k in live <==> k in todo || triggers[k].roleId in guildRoles)
      invariant dropped + |live.Keys| == |triggers.Keys|
      decreases |todo|
    {
      ghost var pick := ElementOf(todo);
      var k :| k in todo;
      if triggers[k].roleId !in guildRoles {
        assert (live - {k}).Keys == live.Keys - {k};
        live := live - {k};
        dropped := dropped + 1;
      }
      todo := todo - {k};
    }
    assert live.Keys == LiveTriggers(triggers, guildRoles).Keys;
    assert |live| == |live.Keys| && |triggers| == |triggers.Keys|;
  }

  /** The guild after the message loop: unfound messages dropped, dead bindings dropped from the others. */
  function Pruned(cfg: GuildConfig, found: set<MessageId>, guildRoles: set<RoleId>): (pruned: GuildConfig)
    ensures forall m :: m in pruned <==> m in cfg && m in found
    ensures forall m :: m in pruned ==> pruned[m] == cfg[m].(triggers := LiveTriggers(cfg[m].triggers, guildRoles))
  {
    map m | m in cfg && m in found :: cfg[m].(triggers := LiveTriggers(cfg[m].triggers, guildRoles))
  }

  /** The message loop of `reaction_cleanup`: drops unfound messages and dead bindings, counting both. */
  method DropMissing(cfg: GuildConfig, found: set<MessageId>, guildRoles: set<RoleId>)
    returns (cur: GuildConfig, removedMessages: nat, removedRoles: nat)
    ensures cur == Pruned(cfg, found, guildRoles)
    ensures removedMessages + |cur| == |cfg|
    ensures removedRoles + |BindingKeys(cur)| == |BindingKeys(cfg)|
  {
    cur := cfg;
    removedMessages, removedRoles := 0, 0;
    var todo := cfg.Keys;
    while todo != {}
      invariant todo <= cfg.Keys
      invariant cur.Keys <= cfg.Keys
      invariant forall m :: m in cfg ==> (m in cur <==> m in todo || m in found)
      invariant forall m :: m in cur ==>
                  cur[m] == if m in todo then cfg[m] else cfg[m].(triggers := LiveTriggers(cfg[m].triggers, guildRoles))
      invariant removedMessages + |cur.Keys| == |cfg.Keys|
      invariant removedRoles + |BindingKeys(cur)| == |BindingKeys(cfg)|
      decreases |todo|
    {
      ghost var pick := ElementOf(todo);
      var m :| m in todo;
      if m !in found {
        BindingCount(cur, m);
        removedRoles := removedRoles + |cur[m].triggers|;
        assert (cur - {m}).Keys == cur.Keys - {m};
        cur := cur - {m};
        removedMessages := removedMessages + 1;
      } else {
        var live, dropped := DropDeadBindings(cur[m].triggers, guildRoles);
        ReplaceCount(cur, m, live);
        assert cur[m := cur[m].(triggers := live)].Keys == cur.Keys;
        cur := cur[m := cur[m].(triggers := live)];
        removedRoles := removedRoles + dropped;
      }
      todo := todo - {m};
    }
    IsPruned(cfg, found, guildRoles, cur);
    assert |cur| == |cur.Keys| && |cfg| == |cfg.Keys|;
  }

  /** A guild that agrees pointwise with the pruned guild is the pruned guild. */
  lemma IsPruned(cfg: GuildConfig, found: set<MessageId>, guildRoles: set<RoleId>, cur: GuildConfig)
    requires cur.Keys <= cfg.Keys
    requires forall m :: m in cfg ==> (m in cur <==> m in found)
    requires forall m :: m in cur ==> cur[m] == cfg[m].(triggers := LiveTriggers(cfg[m].triggers, guildRoles))
    ensures cur == Pruned(cfg, found, guildRoles)
  {
    var pruned := Pruned(cfg, found, guildRoles);
    forall x ensures x in cur <==> x in pruned {
      if x in cur {
        assert x in cfg;
      }
    }
    assert cur.Keys == pruned.Keys;
    forall x | x in cur ensures cur[x] == pruned[x] {
      assert x in cfg;
    }
  }

  /** The "remove empty messages" loop: drops every message that configures no role any more. */
  method DropEmpty(cur: GuildConfig) returns (kept: GuildConfig, emptied: nat)
    ensures kept.Keys <= cur.Keys
    ensures forall m :: m in cur ==> (m in kept <==> Configures(cur[m]))
    ensures forall m :: m in kept ==> kept[m] == cur[m]
    ensures emptied + |kept| == |cur|
    ensures BindingKeys(kept) == BindingKeys(cur)
  {
    kept := cur;
    emptied := 0;
    var todo := cur.Keys;
    while todo != {}
      invariant todo <= cur.Keys
      invariant kept.Keys <= cur.Keys
      invariant forall m :: m in cur ==> (m in kept <==> m in todo || Configures(cur[m]))
      invariant forall m :: m in kept ==> kept[m] == cur[m]
      invariant emptied + |kept.Keys| == |cur.Keys|
      decreases |todo|
    {
      ghost var pick := ElementOf(todo);
      var m :| m in todo;
      if |cur[m].triggers| == 0 && !HasMenuRoles(cur[m]) {
        assert (kept - {m}).Keys == kept.Keys - {m};
        kept := kept - {m};
        emptied := emptied + 1;
      }
      todo := todo - {m};
    }
    assert |kept| == |kept.Keys| && |cur| == |cur.Keys|;
    forall p | p in BindingKeys(cur) ensures p in BindingKeys(kept) {
      var m, k :| m in cur && k in cur[m].triggers && p == (m, k);
      assert m in kept;
    }
  }

  /** Dropping the emptied messages of the pruned guild leaves exactly the cleaned guild. */
  lemma PrunedThenEmptied(cfg: GuildConfig, found: set<MessageId>, guildRoles: set<RoleId>, kept: GuildConfig)
    requires var pruned := Pruned(cfg, found, guildRoles);
      && kept.Keys <= pruned.Keys
      && (forall m :: m in pruned ==> (m in kept <==> Configures(pruned[m])))
      && (forall m :: m in kept ==> kept[m] == pruned[m])
    ensures kept == CleanedGuild(cfg, found, guildRoles)
  {
    var pruned := Pruned(cfg, found, guildRoles);
    forall x ensures x in kept <==> x in CleanedGuild(cfg, found, guildRoles) {
      if x in kept {
        assert x in pruned;
      }
      if x in cfg && x in found {
        assert x in pruned;
      }
    }
    assert kept.Keys == CleanedGuild(cfg, found, guildRoles).Keys;
    forall x | x in kept ensures kept[x] == CleanedGuild(cfg, found, guildRoles)[x] {
      assert x in pruned;
    }
  }

  class ReactionRoles {
    var config: map<GuildId, GuildConfig>

    ghost predicate Valid()
      reads this
    {
      ConfigValid(config)
    }

    constructor()
      ensures config == map[] && Valid()
    {
      config := map[];
    }

    /** The guild's entry, or an empty one. */
    function GuildConfigOf(g: GuildId): (cfg: GuildConfig)
      reads this
      ensures g in config ==> cfg == config[g]
      ensures g !in config ==> cfg == map[]
    {
      if g in config then config[g] else map[]
    }

    // -------------------------------------------------------------------------
    // Activation handlers: they read the configuration and return the role changes.

    /** `RoleButton.callback`. */
    method ClickButton(interactionGuild: GuildId, buttonGuild: GuildId, m: MessageId, b: Binding,
                       memberRoles: set<RoleId>, guildRoles: set<RoleId>) returns (o: Outcome)
      ensures o == ResolveButton(GuildConfigOf(buttonGuild), interactionGuild, buttonGuild, m, b, memberRoles, guildRoles)
    {
      if interactionGuild != buttonGuild {
        return Rejected(WrongGuild);
      }
      if b.roleId !in guildRoles {
        return Rejected(RoleMissing);
      }
      var cfg := GuildConfigOf(buttonGuild);
      if m !in cfg {
        return Rejected(MissingMessage);
      }
      var msg := cfg[m];
      var held := memberRoles * guildRoles;
      var open := HasRequiredRole(msg.settings.requiredRoles, memberRoles, guildRoles);
      if !open {
        return Rejected(MissingRequiredRole);
      }
      if msg.settings.maxRoles != 0 {
        var count := CountBoundHeld(msg.triggers, held);
        if count >= msg.settings.maxRoles && b.roleId !in held {
          return Rejected(CapReached);
        }
      }
      var others: set<RoleId> := {};
      if b.mode == Unique {
        others := CollectMessageRemovals(msg.triggers, held, SkipRole(b.roleId));
      } else if b.mode == Exclusive {
        others := CollectGuildRemovals(cfg, held, m, SkipRole(b.roleId));
      }
      if b.roleId in held {
        o := Applied({}, others + {b.roleId});
      } else {
        o := Applied({b.roleId}, others);
      }
    }

    /** `on_raw_reaction_add`. */
    method ReactionAdded(g: GuildId, m: MessageId, key: string, fromBot: bool,
                         memberRoles: set<RoleId>, guildRoles: set<RoleId>) returns (o: Outcome)
      ensures o == ResolveReactionAdd(GuildConfigOf(g), m, key, fromBot, memberRoles, guildRoles)
    {
      if fromBot {
        return Rejected(BotReaction);
      }
      var cfg := GuildConfigOf(g);
      if m !in cfg || key !in cfg[m].triggers {
        return Rejected(NoBinding);
      }
      var msg := cfg[m];
      var b := msg.triggers[key];
      var held := memberRoles * guildRoles;
      var open := HasRequiredRole(msg.settings.requiredRoles, memberRoles, guildRoles);
      if !open {
        return Rejected(MissingRequiredRole);
      }
      if msg.settings.maxRoles != 0 {
        var count := CountBoundHeld(msg.triggers, held);
        if count >= msg.settings.maxRoles && b.roleId !in held {
          return Rejected(CapReached);
        }
      }
      if b.roleId !in guildRoles {
        return Rejected(RoleMissing);
      }
      var others: set<RoleId> := {};
      if b.mode == Unique {
        others := CollectMessageRemovals(msg.triggers, held, SkipKey(key));
      } else if b.mode == Exclusive {
        others := CollectGuildRemovals(cfg, held, m, SkipKey(key));
      }
      o := Applied({b.roleId}, others);
    }

    /** `on_raw_reaction_remove`. */
    method ReactionRemoved(g: GuildId, m: MessageId, key: string, fromBot: bool,
                           memberRoles: set<RoleId>, guildRoles: set<RoleId>) returns (o: Outcome)
      ensures o == ResolveReactionRemove(GuildConfigOf(g), m, key, fromBot, memberRoles, guildRoles)
    {
      if fromBot {
        return Rejected(BotReaction);
      }
      var cfg := GuildConfigOf(g);
      if m !in cfg || key !in cfg[m].triggers {
        return Rejected(NoBinding);
      }
      var r := cfg[m].triggers[key].roleId;
      if r in guildRoles && r in memberRoles {
        o := Applied({}, {r});
      } else {
        o := Applied({}, {});
      }
    }

    /** `RoleSelectMenu.callback`. */
    method MenuSelected(interactionGuild: GuildId, menuGuild: GuildId, m: MessageId, cat: string,
                        selected: set<RoleId>, memberRoles: set<RoleId>, guildRoles: set<RoleId>) returns (o: Outcome)
      ensures o == ResolveMenu(GuildConfigOf(menuGuild), interactionGuild, menuGuild, m, cat, selected, memberRoles, guildRoles)
    {
      if interactionGuild != menuGuild {
        return Rejected(WrongGuild);
      }
      var cfg := GuildConfigOf(menuGuild);
      if m !in cfg {
        return Rejected(MissingMessage);
      }
      if cat !in cfg[m].settings.categories {
        return Rejected(MissingCategory);
      }
      var c := cfg[m].settings.categories[cat];
      var held := memberRoles * guildRoles;
      var add, dropped, cleared := MenuPass(cfg, m, cat, c, selected, held, guildRoles);
      o := Applied(add, dropped + cleared);
    }

    // -------------------------------------------------------------------------
    // Configuration commands: they edit the configuration in place.

    /** Creating a reaction, button or menu message: a fresh entry with default settings and no binding. */
    method CreateMessage(g: GuildId, m: MessageId, style: Style)
      modifies this
      ensures config == WithMessage(old(config), g, m, RoleMessage(NewSettings(style), map[]))
      ensures old(Valid()) ==> Valid()
    {
      var msg := RoleMessage(NewSettings(style), map[]);
      if old(Valid()) {
        WithMessageKeepsValid(config, g, m, msg);
      }
      config := WithMessage(config, g, m, msg);
    }

    /** `add_reaction_role`, storing the `{role_id, mode}` entry every reader expects (mode normal). */
    method AddReactionRole(g: GuildId, m: MessageId, key: string, roleId: RoleId)
      modifies this
      ensures var before := MessageAt(old(config), g, m);
        var msg := if before.Some? then before.value else RoleMessage(NewSettings(Reactions), map[]);
        config == WithMessage(old(config), g, m, msg.(triggers := msg.triggers[key := Binding(roleId, Normal)]))
      ensures old(Valid()) ==> Valid()
    {
      var before := MessageAt(config, g, m);
      var msg := if before.Some? then before.value else RoleMessage(NewSettings(Reactions), map[]);
      var updated := msg.(triggers := msg.triggers[key := Binding(roleId, Normal)]);
      if old(Valid()) {
        WithMessageKeepsValid(config, g, m, updated);
      }
      config := WithMessage(config, g, m, updated);
    }

    /** `reaction_settings`: sets the cap when given and adds a required role when given. */
    method ReactionSettings(g: GuildId, m: MessageId, maxRoles: Option<int>, requiredRole: Option<RoleId>)
      returns (found: bool)
      modifies this
      ensures found <==> MessageAt(old(config), g, m).Some?
      ensures !found ==> config == old(config)
      ensures found ==>
        var msg := old(config)[g][m];
        var s := msg.settings;
        config == WithMessage(old(config), g, m, msg.(settings := s.(
          maxRoles := if maxRoles.Some? then maxRoles.value else s.maxRoles,
          requiredRoles := if requiredRole.Some? then WithRequiredRole(s.requiredRoles, requiredRole.value) else s.requiredRoles)))
      ensures old(Valid()) ==> Valid()
    {
      var at := MessageAt(config, g, m);
      if at.None? {
        return false;
      }
      var msg := at.value;
      var s := msg.settings;
      if maxRoles.Some? {
        s := s.(maxRoles := maxRoles.value);
      }
      if requiredRole.Some? {
        s := s.(requiredRoles := WithRequiredRole(s.requiredRoles, requiredRole.value));
      }
      if old(Valid()) {
        WithMessageKeepsValid(config, g, m, msg.(settings := s));
      }
      config := WithMessage(config, g, m, msg.(settings := s));
      found := true;
    }

    /** `add_category`: a new empty category under the slug of its name, unless that id is taken. */
    method AddCategory(g: GuildId, m: MessageId, name: string, description: Option<string>, emoji: Option<string>)
      returns (o: EditOutcome)
      modifies this
      ensures var at := MessageAt(old(config), g, m);
        && (o == MenuNotFound <==> at.None?)
        && (o == NotAMenu <==> at.Some? && at.value.settings.style != Menu)
        && (o == CategoryExists <==> at.Some? && at.value.settings.style == Menu && Slug(name) in at.value.settings.categories)
        && (o == Edited <==> at.Some? && at.value.settings.style == Menu && Slug(name) !in at.value.settings.categories)
      ensures o != Edited ==> config == old(config)
      ensures o == Edited ==>
        var msg := old(config)[g][m];
        config == WithMessage(old(config), g, m, msg.(settings := msg.settings.(
          categories := msg.settings.categories[Slug(name) := Category(name, description, emoji, [])])))
      ensures old(Valid()) ==> Valid()
    {
      var at := MessageAt(config, g, m);
      if at.None? {
        return MenuNotFound;
      }
      var msg := at.value;
      if msg.settings.style != Menu {
        return NotAMenu;
      }
      var id := Slug(name);
      if id in msg.settings.categories {
        return CategoryExists;
      }
      var s := msg.settings.(categories := msg.settings.categories[id := Category(name, description, emoji, [])]);
      if old(Valid()) {
        assert MenuRolesUnique(s) by {
          assert CategoryRoleIds(s.categories[id]) == {};
          forall c | c in s.categories && c != id ensures s.categories[c] == msg.settings.categories[c] {}
        }
        WithMessageKeepsValid(config, g, m, msg.(settings := s));
      }
      config := WithMessage(config, g, m, msg.(settings := s));
      o := Edited;
    }

    /**
     * `add_menu_role`: appends the role to the category named `categoryName`
     * unless the category is missing, the role is at or above the bot's top
     * role, or some category of the menu already lists it.
     */
    method AddMenuRole(g: GuildId, m: MessageId, categoryName: string, roleId: RoleId, rolePosition: int,
                       botTopPosition: int, description: Option<string>, emoji: Option<string>, mode: Mode)
      returns (o: EditOutcome)
      modifies this
      ensures var at := MessageAt(old(config), g, m);
        && (o == MenuNotFound <==> at.None?)
        && (o == NotAMenu <==> at.Some? && at.value.settings.style != Menu)
        && (o == CategoryNotFound <==> at.Some? && at.value.settings.style == Menu
                                       && Slug(categoryName) !in at.value.settings.categories)
        && (o == RoleTooHigh <==> at.Some? && at.value.settings.style == Menu
                                  && Slug(categoryName) in at.value.settings.categories && rolePosition >= botTopPosition)
        && (o == RoleAlreadyListed <==> at.Some? && at.value.settings.style == Menu
                                        && Slug(categoryName) in at.value.settings.categories && rolePosition < botTopPosition
                                        && InSomeCategory(at.value.settings, roleId))
      ensures o != Edited ==> config == old(config)
      ensures o == Edited ==>
        var msg := old(config)[g][m];
        && !InSomeCategory(msg.settings, roleId)
        && config == WithMessage(old(config), g, m, msg.(settings := AppendMenuRole(msg.settings, Slug(categoryName),
                                                                     MenuRole(roleId, description, emoji, mode))))
      ensures old(Valid()) ==> Valid()
      ensures old(Valid()) && o == Edited ==> InSomeCategory(config[g][m].settings, roleId)
    {
      var at := MessageAt(config, g, m);
      if at.None? {
        return MenuNotFound;
      }
      var msg := at.value;
      if msg.settings.style != Menu {
        return NotAMenu;
      }
      var id := Slug(categoryName);
      if id !in msg.settings.categories {
        return CategoryNotFound;
      }
      if rolePosition >= botTopPosition {
        return RoleTooHigh;
      }
      var listed := ListedAnywhere(msg.settings, roleId);
      if listed {
        return RoleAlreadyListed;
      }
      var mr := MenuRole(roleId, description, emoji, mode);
      var s := AppendMenuRole(msg.settings, id, mr);
      if old(Valid()) {
        AppendMenuRoleKeepsUnique(msg.settings, id, mr);
        WithMessageKeepsValid(config, g, m, msg.(settings := s));
      }
      config := WithMessage(config, g, m, msg.(settings := s));
      o := Edited;
    }

    /** `remove_menu_role`: pops the first entry listing the role from a category that lists it. */
    method RemoveMenuRole(g: GuildId, m: MessageId, roleId: RoleId) returns (o: EditOutcome)
      modifies this
      ensures var at := MessageAt(old(config), g, m);
        && (o == MenuNotFound <==> at.None?)
        && (o == NotAMenu <==> at.Some? && at.value.settings.style != Menu)
        && (o == RoleNotListed <==> at.Some? && at.value.settings.style == Menu && !InSomeCategory(at.value.settings, roleId))
        && (o == Edited <==> at.Some? && at.value.settings.style == Menu && InSomeCategory(at.value.settings, roleId))
      ensures o != Edited ==> config == old(config)
      ensures o == Edited ==>
        var msg := old(config)[g][m];
        exists c, i :: c in msg.settings.categories && FirstIndexOf(msg.settings.categories[c].roles, roleId) == Some(i)
          && config == WithMessage(old(config), g, m, msg.(settings := DropMenuRole(msg.settings, c, i)))
      ensures old(Valid()) ==> Valid()
      ensures old(Valid()) && o == Edited ==> !InSomeCategory(config[g][m].settings, roleId)
    {
      var at := MessageAt(config, g, m);
      if at.None? {
        return MenuNotFound;
      }
      var msg := at.value;
      if msg.settings.style != Menu {
        return NotAMenu;
      }
      var hit := FindListed(msg.settings, roleId);
      if hit.None? {
        return RoleNotListed;
      }
      var (c, i) := hit.value;
      var s := DropMenuRole(msg.settings, c, i);
      if old(Valid()) {
        DropMenuRoleUnlists(msg.settings, c, i);
        assert NoDuplicates(s.requiredRoles);
        WithMessageKeepsValid(config, g, m, msg.(settings := s));
      }
      config := WithMessage(config, g, m, msg.(settings := s));
      o := Edited;
    }

    /** `remove_category`: deletes the category with the slug of the given name. */
    method RemoveCategory(g: GuildId, m: MessageId, categoryName: string) returns (o: EditOutcome)
      modifies this
      ensures var at := MessageAt(old(config), g, m);
        && (o == MenuNotFound <==> at.None?)
        && (o == NotAMenu <==> at.Some? && at.value.settings.style != Menu)
        && (o == CategoryNotFound <==> at.Some? && at.value.settings.style == Menu
                                       && Slug(categoryName) !in at.value.settings.categories)
        && (o == Edited <==> at.Some? && at.value.settings.style == Menu
                             && Slug(categoryName) in at.value.settings.categories)
      ensures o != Edited ==> config == old(config)
      ensures o == Edited ==>
        var msg := old(config)[g][m];
        config == WithMessage(old(config), g, m, msg.(settings := msg.settings.(
          categories := msg.settings.categories - {Slug(categoryName)})))
      ensures old(Valid()) ==> Valid()
    {
      var at := MessageAt(config, g, m);
      if at.None? {
        return MenuNotFound;
      }
      var msg := at.value;
      if msg.settings.style != Menu {
        return NotAMenu;
      }
      var id := Slug(categoryName);
      if id !in msg.settings.categories {
        return CategoryNotFound;
      }
      var s := msg.settings.(categories := msg.settings.categories - {id});
      if old(Valid()) {
        RemoveCategoryKeepsUnique(msg.settings, id);
        WithMessageKeepsValid(config, g, m, msg.(settings := s));
      }
      config := WithMessage(config, g, m, msg.(settings := s));
      o := Edited;
    }

    /**
     * `reaction_cleanup`: drops unfound messages, bindings whose role is gone,
     * then messages that configure no role any more, then the guild entry if
     * it is empty, and reports what it counted.  `found` is the set of messages that could
     * still be fetched.
     */
    method Cleanup(g: GuildId, found: set<MessageId>, guildRoles: set<RoleId>) returns (report: CleanupReport)
      modifies this
      ensures report.NothingToClean? <==> (g !in old(config) || old(config)[g] == map[])
      ensures report.NothingToClean? ==> config == old(config)
      ensures report.Report? ==>
        var clean := CleanedGuild(old(config)[g], found, guildRoles);
        && config == (if clean == map[] then old(config) - {g} else old(config)[g := clean])
        && report.initialMessages == |old(config)[g]|
        && report.initialRoles == |BindingKeys(old(config)[g])|
        && report.RemainingMessages() == |clean|
        && report.RemainingRoles() == |BindingKeys(clean)|
      ensures old(Valid()) ==> Valid()
    {
      if g !in config || config[g] == map[] {
        return NothingToClean;
      }
      var cfg := config[g];
      var initialMessages, initialRoles := CountEntries(cfg);
      var pruned, removedMessages, removedRoles := DropMissing(cfg, found, guildRoles);
      var kept, emptied := DropEmpty(pruned);
      removedMessages := removedMessages + emptied;
      PrunedThenEmptied(cfg, found, guildRoles, kept);
      if old(Valid()) {
        CleanedGuildSound(cfg, found, guildRoles);
      }
      if kept == map[] {
        config := config - {g};
      } else {
        config := config[g := kept];
      }
      report := Report(initialMessages, initialRoles, removedMessages, removedRoles);
    }
  }

  /** The roles the exclusive menu roles among `adds` clear. */
  ghost function ExclusiveCleared(cfg: GuildConfig, held: set<RoleId>, m: MessageId, cat: string, c: Category,
                                  adds: set<RoleId>): set<RoleId> {
    set r, x | r in adds && LastMode(c.roles, r) == Exclusive && x in MenuExclusiveRemovals(cfg, held, m, cat, r) :: x
  }

  /** Adding one role to `adds` clears, in addition, what that role clears when it is exclusive. */
  lemma ExclusiveClearedStep(cfg: GuildConfig, held: set<RoleId>, m: MessageId, cat: string, c: Category,
                             adds: set<RoleId>, r: RoleId)
    ensures ExclusiveCleared(cfg, held, m, cat, c, adds + {r})
            == ExclusiveCleared(cfg, held, m, cat, c, adds)
               + (if LastMode(c.roles, r) == Exclusive then MenuExclusiveRemovals(cfg, held, m, cat, r) else {})
  {
    var before := ExclusiveCleared(cfg, held, m, cat, c, adds);
    var after := ExclusiveCleared(cfg, held, m, cat, c, adds + {r});
    var extra := if LastMode(c.roles, r) == Exclusive then MenuExclusiveRemovals(cfg, held, m, cat, r) else {};
    forall x | x in after ensures x in before + extra {
      var r' :| r' in adds + {r} && LastMode(c.roles, r') == Exclusive && x in MenuExclusiveRemovals(cfg, held, m, cat, r');
      if r' != r {
        assert x in before;
      }
    }
    forall x | x in before + extra ensures x in after {
      if x !in before {
        assert r in adds + {r};
      }
    }
  }

  /**
   * One pass over the roles of the submitted category (`role_data_map`):
   * the roles to add, the deselected roles to remove, and the roles the
   * exclusive additions clear.
   */
  method MenuPass(cfg: GuildConfig, m: MessageId, cat: string, c: Category, selected: set<RoleId>,
                  held: set<RoleId>, guildRoles: set<RoleId>)
    returns (add: set<RoleId>, dropped: set<RoleId>, cleared: set<RoleId>)
    requires m in cfg && cat in cfg[m].settings.categories && c == cfg[m].settings.categories[cat]
    ensures add == set r | r in CategoryRoleIds(c) * guildRoles && r in selected && r !in held
    ensures dropped == set r | r in CategoryRoleIds(c) * guildRoles && r !in selected && r in held
    ensures cleared == set r, x | r in add && LastMode(c.roles, r) == Exclusive
                                  && x in MenuExclusiveRemovals(cfg, held, m, cat, r) :: x
  {
    add, dropped, cleared := {}, {}, {};
    var todo := CategoryRoleIds(c);
    while todo != {}
      invariant todo <= CategoryRoleIds(c)
      invariant forall r :: r in add <==> r in CategoryRoleIds(c) * guildRoles && r !in todo && r in selected && r !in held
      invariant forall r :: r in dropped <==> r in CategoryRoleIds(c) * guildRoles && r !in todo && r !in selected && r in held
      invariant cleared == ExclusiveCleared(cfg, held, m, cat, c, add)
      decreases |todo|
    {
      ghost var pick := ElementOf(todo);
      var r :| r in todo;
      if r in guildRoles {
        if r in selected {
          if r !in held {
            ExclusiveClearedStep(cfg, held, m, cat, c, add, r);
            if LastMode(c.roles, r) == Exclusive {
              var flat := CollectGuildRemovals(cfg, held, m, SkipNone);
              var menus := CollectMenuHeld(cfg, held, m, cat, r);
              cleared := cleared + (flat + menus);
            }
            add := add + {r};
          }
        } else if r in held {
          dropped := dropped + {r};
        }
      }
      todo := todo - {r};
    }
    ghost var wantAdd := set r | r in CategoryRoleIds(c) * guildRoles && r in selected && r !in held;
    ghost var wantDropped := set r | r in CategoryRoleIds(c) * guildRoles && r !in selected && r in held;
    assert forall r :: r in add <==> r in wantAdd;
    assert forall r :: r in dropped <==> r in wantDropped;
  }
}

/**
 * The loops the activation handlers run over the configuration: the search
 * for a held required role, the `role_count` tally for the cap, and the
 * passes that collect `roles_to_remove` for unique and exclusive bindings.
 * Each is proved to compute the corresponding set or count of
 * `ReactionResolve`.
 */
module ReactionScan {
  import opened Common
  import opened ReactionConfig
  import opened ReactionResolve

  /** The required-roles loop: stops at the first required role that exists and is held. */
  method HasRequiredRole(required: seq<RoleId>, memberRoles: set<RoleId>, guildRoles: set<RoleId>) returns (open: bool)
    ensures open == GateOpen(required, Held(memberRoles, guildRoles))
  {
    if |required| == 0 {
      return true;
    }
    open := false;
    var i := 0;
    while i < |required| && !open
      invariant 0 <= i <= |required|
      invariant open <==> exists j :: 0 <= j < i && required[j] in Held(memberRoles, guildRoles)
    {
      if required[i] in guildRoles && required[i] in memberRoles {
        open := true;
      }
      i := i + 1;
    }
  }

  /** The `role_count` loop over a message's bindings. */
  method CountBoundHeld(triggers: map<string, Binding>, held: set<RoleId>) returns (count: nat)
    ensures count == BoundHeldCount(triggers, held)
  {
    count := 0;
    var todo := triggers.Keys;
    ghost var counted: set<string> := {};
    while todo != {}
      invariant todo <= triggers.Keys
      invariant counted == set k | k in triggers && k !in todo && triggers[k].roleId in held
      invariant count == |counted|
      decreases |todo|
    {
      ghost var pick := ElementOf(todo);
      var k :| k in todo;
      if triggers[k].roleId in held {
        assert k !in counted;
        counted := counted + {k};
        count := count + 1;
      }
      todo := todo - {k};
    }
    assert counted == BoundHeldKeys(triggers, held);
  }

  /** The unique-mode pass: the held roles of a message's other bindings. */
  method CollectMessageRemovals(triggers: map<string, Binding>, held: set<RoleId>, skip: Skip) returns (found: set<RoleId>)
    ensures found == MessageRemovals(triggers, held, skip)
  {
    found := {};
    var todo := triggers.Keys;
    while todo != {}
      invariant todo <= triggers.Keys
      invariant found == set k | k in triggers && k !in todo && triggers[k].roleId in held
                                 && !skip.Matches(k, triggers[k]) :: triggers[k].roleId
      decreases |todo|
    {
      ghost var pick := ElementOf(todo);
      var k :| k in todo;
      if triggers[k].roleId in held && !skip.Matches(k, triggers[k]) {
        found := found + {triggers[k].roleId};
      }
      todo := todo - {k};
    }
  }

  /** The exclusive-mode pass: the held roles of every binding of every message of the guild, but the skipped one. */
  method CollectGuildRemovals(cfg: GuildConfig, held: set<RoleId>, m: MessageId, skip: Skip) returns (found: set<RoleId>)
    ensures found == GuildRemovals(cfg, held, m, skip)
  {
    found := {};
    var todo := cfg.Keys;
    while todo != {}
      invariant todo <= cfg.Keys
      invariant found == set m', r | m' in cfg && m' !in todo
                                     && r in MessageRemovals(cfg[m'].triggers, held, SkipAt(m', m, skip)) :: r
      decreases |todo|
    {
      ghost var pick := ElementOf(todo);
      var here :| here in todo;
      var more := CollectMessageRemovals(cfg[here].triggers, held, SkipAt(here, m, skip));
      found := found + more;
      todo := todo - {here};
      forall x | x in found
        ensures exists m' :: m' in cfg && m' !in todo && x in MessageRemovals(cfg[m'].triggers, held, SkipAt(m', m, skip))
      {
        if x in more {
          assert here in cfg && here !in todo;
        }
      }
    }
  }

  /** The held roles listed in one category, leaving out `skipped` when given. */
  function CategoryHeld(c: Category, held: set<RoleId>, skipped: Option<RoleId>): set<RoleId> {
    set x | x in CategoryRoleIds(c) && x in held && (skipped.None? || x != skipped.value)
  }

  method CollectCategoryHeld(c: Category, held: set<RoleId>, skipped: Option<RoleId>) returns (found: set<RoleId>)
    ensures found == CategoryHeld(c, held, skipped)
  {
    found := {};
    var i := 0;
    while i < |c.roles|
      invariant 0 <= i <= |c.roles|
      invariant found == set j | 0 <= j < i && c.roles[j].roleId in held
                                 && (skipped.None? || c.roles[j].roleId != skipped.value) :: c.roles[j].roleId
    {
      var r := c.roles[i].roleId;
      if r in held && (skipped.None? || r != skipped.value) {
        found := found + {r};
      }
      i := i + 1;
    }
  }

  function SkippedIn(here: MessageId, c: string, m: MessageId, cat: string, r: RoleId): Option<RoleId> {
    if here == m && c == cat then Some(r) else None
  }

  /** The held roles listed in the categories of one message, leaving out role `r` of category `cat` of message `m`. */
  function SettingsHeld(here: MessageId, s: Settings, held: set<RoleId>, m: MessageId, cat: string, r: RoleId): set<RoleId> {
    set c, x | c in s.categories && x in CategoryHeld(s.categories[c], held, SkippedIn(here, c, m, cat, r)) :: x
  }

  method CollectSettingsHeld(here: MessageId, s: Settings, held: set<RoleId>, m: MessageId, cat: string, r: RoleId)
    returns (found: set<RoleId>)
    ensures found == SettingsHeld(here, s, held, m, cat, r)
  {
    found := {};
    var todo := s.categories.Keys;
    while todo != {}
      invariant todo <= s.categories.Keys
      invariant found == set c, x | c in s.categories && c !in todo
                                    && x in CategoryHeld(s.categories[c], held, SkippedIn(here, c, m, cat, r)) :: x
      decreases |todo|
    {
      ghost var pick := ElementOf(todo);
      var c :| c in todo;
      var more := CollectCategoryHeld(s.categories[c], held, SkippedIn(here, c, m, cat, r));
      found := found + more;
      todo := todo - {c};
    }
  }

  /** The menu half of an exclusive menu selection: the held roles listed in any menu of the guild. */
  method CollectMenuHeld(cfg: GuildConfig, held: set<RoleId>, m: MessageId, cat: string, r: RoleId) returns (found: set<RoleId>)
    ensures found == MenuHeld(cfg, held, m, cat, r)
  {
    found := {};
    var todo := cfg.Keys;
    while todo != {}
      invariant todo <= cfg.Keys
      invariant found == set m', x | m' in cfg && m' !in todo && cfg[m'].settings.style == Menu
                                     && x in SettingsHeld(m', cfg[m'].settings, held, m, cat, r) :: x
      decreases |todo|
    {
      ghost var pick := ElementOf(todo);
      var here :| here in todo;
      if cfg[here].settings.style == Menu {
        var more := CollectSettingsHeld(here, cfg[here].settings, held, m, cat, r);
        found := found + more;
      }
      todo := todo - {here};
    }
    MenuHeldBySettings(cfg, held, m, cat, r);
  }

  lemma MenuHeldBySettings(cfg: GuildConfig, held: set<RoleId>, m: MessageId, cat: string, r: RoleId)
    ensures MenuHeld(cfg, held, m, cat, r)
         == set m', x | m' in cfg && cfg[m'].settings.style == Menu
                        && x in SettingsHeld(m', cfg[m'].settings, held, m, cat, r) :: x
  {
    var lhs := MenuHeld(cfg, held, m, cat, r);
    var rhs := set m', x | m' in cfg && cfg[m'].settings.style == Menu
                           && x in SettingsHeld(m', cfg[m'].settings, held, m, cat, r) :: x;
    forall x | x in lhs ensures x in rhs {
      var m', c :| m' in cfg && cfg[m'].settings.style == Menu && c in cfg[m'].settings.categories
                   && x in CategoryRoleIds(cfg[m'].settings.categories[c]) && x in held
                   && !(m' == m && c == cat && x == r);
      assert x in CategoryHeld(cfg[m'].settings.categories[c], held, SkippedIn(m', c, m, cat, r));
      assert x in SettingsHeld(m', cfg[m'].settings, held, m, cat, r);
    }
    forall x | x in rhs ensures x in lhs {
      var m' :| m' in cfg && cfg[m'].settings.style == Menu && x in SettingsHeld(m', cfg[m'].settings, held, m, cat, r);
      var c :| c in cfg[m'].settings.categories
                && x in CategoryHeld(cfg[m'].settings.categories[c], held, SkippedIn(m', c, m, cat, r));
      assert x in CategoryRoleIds(cfg[m'].settings.categories[c]) && x in held && !(m' == m && c == cat && x == r);
    }
  }
}

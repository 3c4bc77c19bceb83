/**
 * The value-level effect of the configuration commands on one message's
 * settings, and the configuration `reaction_cleanup` leaves behind, with the
 * invariants each edit keeps.
 */
module ReactionEdits {
  import opened Common
  import opened ReactionConfig

  /** `reaction_settings`: a required role is appended unless it is already listed. */
  function WithRequiredRole(required: seq<RoleId>, r: RoleId): (out: seq<RoleId>)
    ensures forall x :: x in out <==> x in required || x == r
    ensures NoDuplicates(required) ==> NoDuplicates(out)
    ensures r in required ==> out == required
    ensures |out| <= |required| + 1
  {
    if r in required then required else required + [r]
  }

  /** `add_menu_role`'s write: the role is appended to the roles of category `id`. */
  function AppendMenuRole(s: Settings, id: string, mr: MenuRole): (t: Settings)
    requires id in s.categories
    ensures t.requiredRoles == s.requiredRoles && t.maxRoles == s.maxRoles && t.style == s.style
    ensures t.categories.Keys == s.categories.Keys
    ensures forall c :: c in s.categories && c != id ==> t.categories[c] == s.categories[c]
    ensures t.categories[id].roles == s.categories[id].roles + [mr]
  {
    s.(categories := s.categories[id := s.categories[id].(roles := s.categories[id].roles + [mr])])
  }

  /**
   * Appending a role that no category lists keeps every role id listed at most
   * once across the menu, and afterwards the role is listed (in category `id`).
   */
  lemma AppendMenuRoleKeepsUnique(s: Settings, id: string, mr: MenuRole)
    requires id in s.categories
    requires MenuRolesUnique(s)
    requires !InSomeCategory(s, mr.roleId)
    ensures MenuRolesUnique(AppendMenuRole(s, id, mr))
    ensures mr.roleId in CategoryRoleIds(AppendMenuRole(s, id, mr).categories[id])
  {
    var t := AppendMenuRole(s, id, mr);
    var old_ := s.categories[id];
    var new_ := t.categories[id];
    assert CategoryRoleIds(new_) == CategoryRoleIds(old_) + {mr.roleId} by {
      forall x | x in CategoryRoleIds(new_) ensures x in CategoryRoleIds(old_) + {mr.roleId} {
        var i :| 0 <= i < |new_.roles| && new_.roles[i].roleId == x;
        if i < |old_.roles| {
          assert new_.roles[i] == old_.roles[i];
        }
      }
      forall x | x in CategoryRoleIds(old_) ensures x in CategoryRoleIds(new_) {
        var i :| 0 <= i < |old_.roles| && old_.roles[i].roleId == x;
        assert new_.roles[i] == old_.roles[i];
      }
      assert new_.roles[|old_.roles|] == mr;
    }
    assert mr.roleId !in CategoryRoleIds(old_);
    assert CategoryRolesDistinct(new_) by {
      forall i, j | 0 <= i < j < |new_.roles|
        ensures new_.roles[i].roleId != new_.roles[j].roleId
      {
        assert new_.roles[i] == old_.roles[i];
        if j < |old_.roles| {
          assert new_.roles[j] == old_.roles[j];
        } else {
          assert old_.roles[i].roleId in CategoryRoleIds(old_);
        }
      }
    }
    forall c, d | c in t.categories && d in t.categories && c != d
      ensures CategoryRoleIds(t.categories[c]) !! CategoryRoleIds(t.categories[d])
    {
      if c == id {
        assert CategoryRoleIds(s.categories[c]) !! CategoryRoleIds(s.categories[d]);
        assert mr.roleId !in CategoryRoleIds(s.categories[d]);
      } else if d == id {
        assert CategoryRoleIds(s.categories[c]) !! CategoryRoleIds(s.categories[d]);
        assert mr.roleId !in CategoryRoleIds(s.categories[c]);
      } else {
        assert CategoryRoleIds(s.categories[c]) !! CategoryRoleIds(s.categories[d]);
      }
    }
  }

  /** The index of the first entry of `roles` listing role `r` (the `enumerate` scan of `remove_menu_role`). */
  function FirstIndexOf(roles: seq<MenuRole>, r: RoleId): (i: Option<nat>)
    ensures i.Some? ==> i.value < |roles| && roles[i.value].roleId == r
                        && forall j :: 0 <= j < i.value ==> roles[j].roleId != r
    ensures i.None? <==> r !in (set j | 0 <= j < |roles| :: roles[j].roleId)
  {
    if |roles| == 0 then None
    else if roles[0].roleId == r then Some(0)
    else
      var rest := FirstIndexOf(roles[1..], r);
      assert forall j :: 1 <= j < |roles| ==> roles[j] == roles[1..][j - 1];
      if rest.None? then
        assert forall j :: 0 <= j < |roles| ==> roles[j].roleId != r by {
          forall j | 1 <= j < |roles| ensures roles[j].roleId != r {
            assert roles[1..][j - 1].roleId in (set j' | 0 <= j' < |roles[1..]| :: roles[1..][j'].roleId);
          }
        }
        None
      else
        assert roles[1..][rest.value] == roles[rest.value + 1];
        Some(rest.value + 1)
  }

  /** `pop(i)` on the roles of category `id`. */
  function DropMenuRole(s: Settings, id: string, i: nat): (t: Settings)
    requires id in s.categories && i < |s.categories[id].roles|
    ensures t.requiredRoles == s.requiredRoles && t.maxRoles == s.maxRoles && t.style == s.style
    ensures t.categories.Keys == s.categories.Keys
    ensures forall c :: c in s.categories && c != id ==> t.categories[c] == s.categories[c]
    ensures t.categories[id].roles == s.categories[id].roles[..i] + s.categories[id].roles[i + 1..]
  {
    var roles := s.categories[id].roles;
    s.(categories := s.categories[id := s.categories[id].(roles := roles[..i] + roles[i + 1..])])
  }

  /**
   * In a menu that lists every role id at most once, popping the entry of
   * role r unlists r everywhere, keeps every other listed role where it was,
   * and keeps the uniqueness invariant.
   */
  lemma DropMenuRoleUnlists(s: Settings, id: string, i: nat)
    requires id in s.categories && i < |s.categories[id].roles|
    requires MenuRolesUnique(s)
    ensures var r := s.categories[id].roles[i].roleId;
      var t := DropMenuRole(s, id, i);
      && MenuRolesUnique(t)
      && !InSomeCategory(t, r)
      && CategoryRoleIds(t.categories[id]) == CategoryRoleIds(s.categories[id]) - {r}
  {
    var r := s.categories[id].roles[i].roleId;
    var t := DropMenuRole(s, id, i);
    DropEntry(s.categories[id], i);
    assert t.categories[id] == s.categories[id].(roles := s.categories[id].roles[..i] + s.categories[id].roles[i + 1..]);
    forall c | c in t.categories
      ensures r !in CategoryRoleIds(t.categories[c])
    {
      if c != id {
        assert r in CategoryRoleIds(s.categories[id]);
        assert CategoryRoleIds(s.categories[c]) !! CategoryRoleIds(s.categories[id]);
      }
    }
    forall c, d | c in t.categories && d in t.categories && c != d
      ensures CategoryRoleIds(t.categories[c]) !! CategoryRoleIds(t.categories[d])
    {
      assert CategoryRoleIds(s.categories[c]) !! CategoryRoleIds(s.categories[d]);
    }
  }

  /** Popping entry i of a category without repeated ids unlists exactly its role. */
  lemma DropEntry(c: Category, i: nat)
    requires i < |c.roles| && CategoryRolesDistinct(c)
    ensures var c' := c.(roles := c.roles[..i] + c.roles[i + 1..]);
      CategoryRoleIds(c') == CategoryRoleIds(c) - {c.roles[i].roleId} && CategoryRolesDistinct(c')
  {
    DropEntryIds(c, i);
    DropEntryDistinct(c, i);
  }

  /** The ids left after popping entry i: those of the other entries. */
  lemma DropEntryIds(c: Category, i: nat)
    requires i < |c.roles| && CategoryRolesDistinct(c)
    ensures CategoryRoleIds(c.(roles := c.roles[..i] + c.roles[i + 1..])) == CategoryRoleIds(c) - {c.roles[i].roleId}
  {
    var c' := c.(roles := c.roles[..i] + c.roles[i + 1..]);
    forall x | x in CategoryRoleIds(c') ensures x in CategoryRoleIds(c) - {c.roles[i].roleId} {
      PoppedIdWasListed(c, i, x);
    }
    forall x | x in CategoryRoleIds(c) - {c.roles[i].roleId} ensures x in CategoryRoleIds(c') {
      OtherIdStaysListed(c, i, x);
    }
  }

  /** An id listed after the pop was listed before, and is not the popped one. */
  lemma PoppedIdWasListed(c: Category, i: nat, x: RoleId)
    requires i < |c.roles| && CategoryRolesDistinct(c)
    requires x in CategoryRoleIds(c.(roles := c.roles[..i] + c.roles[i + 1..]))
    ensures x in CategoryRoleIds(c) && x != c.roles[i].roleId
  {
    var rest := c.roles[..i] + c.roles[i + 1..];
    var j :| 0 <= j < |rest| && rest[j].roleId == x;
    var k := if j < i then j else j + 1;
    assert rest[j] == c.roles[k];
  }

  /** An id listed before the pop, other than the popped one, is still listed. */
  lemma OtherIdStaysListed(c: Category, i: nat, x: RoleId)
    requires i < |c.roles|
    requires x in CategoryRoleIds(c) && x != c.roles[i].roleId
    ensures x in CategoryRoleIds(c.(roles := c.roles[..i] + c.roles[i + 1..]))
  {
    var rest := c.roles[..i] + c.roles[i + 1..];
    var k :| 0 <= k < |c.roles| && c.roles[k].roleId == x;
    var j := if k < i then k else k - 1;
    assert rest[j] == c.roles[k];
    assert c.(roles := rest).roles[j].roleId == x;
  }

  /** Popping an entry keeps the remaining ids distinct. */
  lemma DropEntryDistinct(c: Category, i: nat)
    requires i < |c.roles| && CategoryRolesDistinct(c)
    ensures CategoryRolesDistinct(c.(roles := c.roles[..i] + c.roles[i + 1..]))
  {
    var c' := c.(roles := c.roles[..i] + c.roles[i + 1..]);
    forall a, b | 0 <= a < b < |c'.roles|
      ensures c'.roles[a].roleId != c'.roles[b].roleId
    {
      var a' := if a < i then a else a + 1;
      var b' := if b < i then b else b + 1;
      assert c'.roles[a] == c.roles[a'] && c'.roles[b] == c.roles[b'];
    }
  }

  /** Deleting a category keeps the uniqueness invariant and unlists exactly that category's roles. */
  lemma RemoveCategoryKeepsUnique(s: Settings, id: string)
    requires MenuRolesUnique(s) && id in s.categories
    ensures var t := s.(categories := s.categories - {id});
      MenuRolesUnique(t)
      && (forall r :: r in CategoryRoleIds(s.categories[id]) ==> !InSomeCategory(t, r))
  {
    var t := s.(categories := s.categories - {id});
    forall r | r in CategoryRoleIds(s.categories[id])
      ensures !InSomeCategory(t, r)
    {
      forall c | c in t.categories ensures r !in CategoryRoleIds(t.categories[c]) {
        assert CategoryRoleIds(s.categories[c]) !! CategoryRoleIds(s.categories[id]);
      }
    }
  }

  // ---------------------------------------------------------------------------
  // reaction_cleanup

  /** A message's bindings whose role still exists. */
  function LiveTriggers(triggers: map<string, Binding>, guildRoles: set<RoleId>): (live: map<string, Binding>)
    ensures forall k :: k in live <==> k in triggers && triggers[k].roleId in guildRoles
    ensures forall k :: k in live ==> live[k] == triggers[k]
  {
    map k | k in triggers && triggers[k].roleId in guildRoles :: triggers[k]
  }

  /** A menu message keeps its roles in the categories of its settings, not under trigger keys. */
  predicate HasMenuRoles(msg: RoleMessage) {
    msg.settings.style == Menu && msg.settings.categories != map[]
  }

  /** A message that still configures a role: a binding under a trigger key, or a menu category. */
  predicate Configures(msg: RoleMessage) {
    msg.triggers != map[] || HasMenuRoles(msg)
  }

  /**
   * The guild configuration after cleanup: messages that were not found are
   * dropped, bindings whose role is gone are dropped, and then every message
   * that configures nothing any more is dropped.
   */
  function CleanedGuild(cfg: GuildConfig, found: set<MessageId>, guildRoles: set<RoleId>): (clean: GuildConfig)
    ensures forall m :: m in clean <==> m in cfg && m in found
                                        && Configures(cfg[m].(triggers := LiveTriggers(cfg[m].triggers, guildRoles)))
    ensures forall m :: m in clean ==> clean[m] == cfg[m].(triggers := LiveTriggers(cfg[m].triggers, guildRoles))
  {
    map m | m in cfg && m in found && Configures(cfg[m].(triggers := LiveTriggers(cfg[m].triggers, guildRoles)))
      :: cfg[m].(triggers := LiveTriggers(cfg[m].triggers, guildRoles))
  }

  /** The (message, trigger key) pairs of a guild: its bindings. */
  function BindingKeys(cfg: GuildConfig): set<(MessageId, string)> {
    set m, k | m in cfg && k in cfg[m].triggers :: (m, k)
  }

  /**
   * After cleanup every remaining binding's role exists, every remaining
   * message was found, still configures a role and has its settings
   * unchanged, every found menu message with a category is kept, and every
   * binding of a found message whose role exists is kept.
   */
  lemma CleanedGuildSound(cfg: GuildConfig, found: set<MessageId>, guildRoles: set<RoleId>)
    ensures var clean := CleanedGuild(cfg, found, guildRoles);
      && (forall m, k :: m in clean && k in clean[m].triggers ==> clean[m].triggers[k].roleId in guildRoles)
      && (forall m :: m in clean ==> m in found && m in cfg && Configures(clean[m])
                                     && clean[m].settings == cfg[m].settings)
      && (forall m :: m in cfg && m in found && HasMenuRoles(cfg[m]) ==> m in clean)
      && (forall m, k :: m in cfg && m in found && k in cfg[m].triggers && cfg[m].triggers[k].roleId in guildRoles
                         ==> m in clean && k in clean[m].triggers && clean[m].triggers[k] == cfg[m].triggers[k])
      && BindingKeys(clean) <= BindingKeys(cfg)
  {
    var clean := CleanedGuild(cfg, found, guildRoles);
    forall m, k | m in cfg && m in found && k in cfg[m].triggers && cfg[m].triggers[k].roleId in guildRoles
      ensures m in clean && k in clean[m].triggers
    {
      assert k in LiveTriggers(cfg[m].triggers, guildRoles);
    }
  }

  /** Cleaning an already clean configuration changes nothing. */
  lemma CleanedGuildIdempotent(cfg: GuildConfig, found: set<MessageId>, guildRoles: set<RoleId>)
    ensures CleanedGuild(CleanedGuild(cfg, found, guildRoles), found, guildRoles) == CleanedGuild(cfg, found, guildRoles)
  {
    var once := CleanedGuild(cfg, found, guildRoles);
    var twice := CleanedGuild(once, found, guildRoles);
    forall m | m in once
      ensures LiveTriggers(once[m].triggers, guildRoles) == once[m].triggers
    {
    }
    assert twice.Keys == once.Keys;
  }
}

/**
 * The configuration of the reaction-role engine, one entry per role message:
 * guild -> message -> (trigger key -> binding) plus the message's settings.
 * Reaction and button messages keep their bindings under trigger keys (the
 * emoji); menu messages keep them in the categories of their settings.
 */
module ReactionConfig {
  import opened Common
  import opened Text

  /** How activating a binding treats the member's other bound roles. */
  datatype Mode = Normal | Unique | Exclusive

  datatype Style = Reactions | Buttons | Menu

  /** The `{role_id, mode}` entry stored under a trigger key. */
  datatype Binding = Binding(roleId: RoleId, mode: Mode)

  /** One role of a menu category. */
  datatype MenuRole = MenuRole(roleId: RoleId, description: Option<string>, emoji: Option<string>, mode: Mode)

  datatype Category = Category(name: string, description: Option<string>, emoji: Option<string>, roles: seq<MenuRole>)

  /**
   * The `"settings"` entry of a message.  A `required_roles` of None and an
   * empty list both mean "no gate" and are both the empty sequence here; a
   * `max_roles` of None and 0 both mean "no cap" and are both 0 here.
   * Messages that are not menus have no categories.
   */
  datatype Settings = Settings(requiredRoles: seq<RoleId>, maxRoles: int, style: Style, categories: map<string, Category>)

  datatype RoleMessage = RoleMessage(settings: Settings, triggers: map<string, Binding>)

  type GuildConfig = map<MessageId, RoleMessage>

  /** The settings a newly created message starts with. */
  function NewSettings(style: Style): (s: Settings)
    ensures |s.requiredRoles| == 0 && s.maxRoles == 0 && s.style == style
    ensures s.categories == map[]
  {
    Settings([], 0, style, map[])
  }

  /** The role ids listed in a category. */
  function CategoryRoleIds(c: Category): (ids: set<RoleId>)
    ensures forall i :: 0 <= i < |c.roles| ==> c.roles[i].roleId in ids
    ensures forall r :: r in ids ==> exists i :: 0 <= i < |c.roles| && c.roles[i].roleId == r
  {
    set i | 0 <= i < |c.roles| :: c.roles[i].roleId
  }

  predicate NoDuplicates<T(==)>(s: seq<T>) {
    forall i, j :: 0 <= i < j < |s| ==> s[i] != s[j]
  }

  /** No role id is listed twice in one category. */
  predicate CategoryRolesDistinct(c: Category) {
    forall i, j :: 0 <= i < j < |c.roles| ==> c.roles[i].roleId != c.roles[j].roleId
  }

  /** Each role id appears at most once across all categories of a menu. */
  predicate MenuRolesUnique(s: Settings) {
    (forall c :: c in s.categories ==> CategoryRolesDistinct(s.categories[c]))
    && (forall c, d :: c in s.categories && d in s.categories && c != d ==>
          CategoryRoleIds(s.categories[c]) !! CategoryRoleIds(s.categories[d]))
  }

  /** Whether a role id is listed in any category of a menu. */
  predicate InSomeCategory(s: Settings, roleId: RoleId) {
    exists c :: c in s.categories && roleId in CategoryRoleIds(s.categories[c])
  }

  /** The category id of a name: lower-cased, with each space replaced by `_` (ASCII letters only). */
  function Slug(name: string): (id: string)
    ensures |id| == |name|
    ensures forall i :: 0 <= i < |name| ==> id[i] == (if name[i] == ' ' then '_' else AsciiLower(name[i]))
  {
    if |name| == 0 then ""
    else [if name[0] == ' ' then '_' else AsciiLower(name[0])] + Slug(name[1..])
  }

  /** A category id is its own id: slugging twice changes nothing. */
  lemma SlugIdempotent(name: string)
    ensures Slug(Slug(name)) == Slug(name)
  {
    var once := Slug(name);
    var twice := Slug(once);
    forall i | 0 <= i < |name|
      ensures twice[i] == once[i]
    {
      if name[i] != ' ' {
        var c := name[i];
        if 'A' <= c <= 'Z' {
          assert once[i] as int == c as int + 32;
        }
      }
    }
  }

  /** A category id never contains a space or an upper-case ASCII letter. */
  lemma SlugHasNoSpaceOrUpper(name: string, i: int)
    requires 0 <= i < |name|
    ensures Slug(name)[i] != ' '
    ensures !('A' <= Slug(name)[i] <= 'Z')
  {
    var c := name[i];
    if c != ' ' && 'A' <= c <= 'Z' {
      assert Slug(name)[i] as int == c as int + 32;
    }
  }
}

/** Shared value types: identifiers and the Option wrapper used for Python's `None`. */
module Common {

  /** Platform snowflakes (guild, message, role, user, channel ids) are integers. */
  type GuildId = int
  type MessageId = int
  type RoleId = int
  type UserId = int

  /** `None` or a present value, the model of Python's `Optional[...]` and of `dict.get`. */
  datatype Option<+T> = None | Some(value: T) {
    function GetOr(default: T): T {
      match this
      case Some(v) => v
      case None => default
    }
  }

  /** What the handlers read from a guild role: its position and whether it is managed by the platform. */
  datatype GuildRole = GuildRole(position: int, isDefault: bool, isIntegration: bool, isPremiumSubscriber: bool)

  /** A role the bot may hand out: below its own top role and not @everyone, a bot role or the booster role. */
  predicate Assignable(role: GuildRole, botTopPosition: int) {
    role.position < botTopPosition && !role.isDefault && !role.isIntegration && !role.isPremiumSubscriber
  }

  /** `dict.get(key)`: the entry, or `None` when the key is absent. */
  function Lookup<K, V>(m: map<K, V>, k: K): (r: Option<V>)
    ensures r.Some? <==> k in m
    ensures r.Some? ==> r.value == m[k]
  {
    if k in m then Some(m[k]) else None
  }

  /** Some element of a non-empty set; loops that take keys one at a time call this before `:|`. */
  lemma ElementOf<T>(s: set<T>) returns (x: T)
    requires s != {}
    ensures x in s
  {
    if forall y :: y !in s {
      assert false;
    }
    x :| x in s;
  }
}

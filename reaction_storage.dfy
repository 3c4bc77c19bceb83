/**
 * The JSON branch of the reaction-role store: an in-memory nested dictionary
 * guild id -> message id -> message document, read and written in place.
 * The document of one message is opaque to the store (type parameter `Doc`).
 */
module ReactionStorage {
  import opened Common

  class ReactionRolesStorage<Doc> {
    /** guild id -> message id -> message document */
    var data: map<GuildId, map<MessageId, Doc>>

    constructor ()
      ensures data == map[]
    {
      data := map[];
    }

    /** `get_guild_data`: the guild's whole map, or an empty map for an unknown guild. */
    function GetGuildData(g: GuildId): (r: map<MessageId, Doc>)
      reads this
      ensures g in data ==> r == data[g]
      ensures g !in data ==> r == map[]
    {
      if g in data then data[g] else map[]
    }

    /** `get_message_data`: the message document, or `None` when the guild or the message is unknown. */
    function GetMessageData(g: GuildId, m: MessageId): (r: Option<Doc>)
      reads this
      ensures r.Some? <==> g in data && m in data[g]
      ensures r.Some? ==> r.value == data[g][m]
    {
      if g in data && m in data[g] then Some(data[g][m]) else None
    }

    /** `set_guild_data`: replaces the whole guild map. */
    method SetGuildData(g: GuildId, guildData: map<MessageId, Doc>)
      modifies this
      ensures data == old(data)[g := guildData]
      ensures GetGuildData(g) == guildData
    {
      data := data[g := guildData];
    }

    /** `set_message_data`: creates the guild map when absent, then stores the document. */
    method SetMessageData(g: GuildId, m: MessageId, doc: Doc)
      modifies this
      ensures g in data && data[g] == old(GetGuildData(g))[m := doc]
      ensures forall h :: h in old(data) && h != g ==> h in data && data[h] == old(data)[h]
      ensures data.Keys == old(data).Keys + {g}
      ensures GetMessageData(g, m) == Some(doc)
    {
      if g !in data {
        data := data[g := map[]];
      }
      data := data[g := data[g][m := doc]];
    }

    /** `delete_message_data`: removes only that key; a no-op when it is absent. */
    method DeleteMessageData(g: GuildId, m: MessageId)
      modifies this
      ensures g in old(data) && m in old(data)[g] ==> data == old(data)[g := old(data)[g] - {m}]
      ensures !(g in old(data) && m in old(data)[g]) ==> data == old(data)
      ensures GetMessageData(g, m) == None
    {
      if g in data && m in data[g] {
        data := data[g := data[g] - {m}];
      }
    }

    /** `delete_guild_data`: removes the guild's map; a no-op when it is absent. */
    method DeleteGuildData(g: GuildId)
      modifies this
      ensures data == old(data) - {g}
      ensures GetGuildData(g) == map[]
    {
      if g in data {
        data := data - {g};
      }
    }
  }
}

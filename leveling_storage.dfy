/**
 * The JSON branch of the leveling store: in-memory dictionaries for user
 * records, guild settings, level roles, level-up messages and card
 * backgrounds, each read and written in place, plus the leaderboard query.
 */
module LevelingStore {
  import opened Common

  /** A user record (`{"xp": .., "level": .., "last_message": ..}`): field name -> integer. */
  type UserDoc = map<string, int>

  /** A JSON scalar, the values held by the settings, roles and messages documents. */
  datatype Value = Null | Flag(b: bool) | Number(n: int) | Text(s: string)
  type Document = map<string, Value>

  /** One leaderboard row: `{'user_id': uid, **data}`. */
  datatype Entry = Entry(userId: UserId, doc: UserDoc)

  /** The sort key `data.get('xp', 0)`. */
  function XpKey(doc: UserDoc): int {
    if "xp" in doc then doc["xp"] else 0
  }

  ghost predicate SortedByXpDesc(s: seq<Entry>) {
    forall i, j :: 0 <= i < j < |s| ==> XpKey(s[i].doc) >= XpKey(s[j].doc)
  }

  /** Inserts `e` in front of the first row whose key is not larger, keeping the order non-increasing. */
  function InsertByXp(e: Entry, s: seq<Entry>): (r: seq<Entry>)
    requires SortedByXpDesc(s)
    ensures SortedByXpDesc(r)
    ensures multiset(r) == multiset(s) + multiset{e}
    ensures |r| == |s| + 1
    ensures r[0] == e || (s != [] && r[0] == s[0])
  {
    if s == [] || XpKey(s[0].doc) <= XpKey(e.doc) then ConsSorted(e, s); [e] + s
    else
      var rest := InsertByXp(e, s[1..]);
      InsertBehindHead(e, s, rest);
      [s[0]] + rest
  }

  /** Putting the head of `s` back in front of `e` inserted into the tail gives `e` inserted into `s`. */
  lemma InsertBehindHead(e: Entry, s: seq<Entry>, rest: seq<Entry>)
    requires SortedByXpDesc(s) && s != [] && XpKey(s[0].doc) > XpKey(e.doc)
    requires SortedByXpDesc(rest) && multiset(rest) == multiset(s[1..]) + multiset{e}
    requires rest != [] && (rest[0] == e || (s[1..] != [] && rest[0] == s[1..][0]))
    ensures SortedByXpDesc([s[0]] + rest)
    ensures multiset([s[0]] + rest) == multiset(s) + multiset{e}
  {
    assert s == [s[0]] + s[1..];
    assert multiset(s) == multiset{s[0]} + multiset(s[1..]);
    ConsSorted(s[0], rest);
    assert multiset([s[0]] + rest) == multiset{s[0]} + multiset(rest);
  }

  /** A row with at least the key of a sorted sequence's head can go in front of it. */
  lemma ConsSorted(x: Entry, s: seq<Entry>)
    requires SortedByXpDesc(s)
    requires s != [] ==> XpKey(x.doc) >= XpKey(s[0].doc)
    ensures SortedByXpDesc([x] + s)
  {
    var r := [x] + s;
    forall i, j | 0 <= i < j < |r| ensures XpKey(r[i].doc) >= XpKey(r[j].doc) {
      assert r[j] == s[j - 1];
      if i > 0 {
        assert r[i] == s[i - 1];
      } else if j > 1 {
        assert XpKey(s[0].doc) >= XpKey(s[j - 1].doc);
      }
    }
  }

  /** `sorted(items, key=xp, reverse=True)`: a permutation of the rows in non-increasing xp order. */
  function SortByXp(s: seq<Entry>): (r: seq<Entry>)
    ensures SortedByXpDesc(r)
    ensures multiset(r) == multiset(s)
  {
    if s == [] then []
    else
      assert s == [s[0]] + s[1..];
      InsertByXp(s[0], SortByXp(s[1..]))
  }

  /** The length Python's `s[:limit]` keeps (a negative limit counts from the end). */
  function SliceLength(n: nat, limit: int): (k: nat)
    ensures k <= n
    ensures limit >= 0 ==> k == if limit < n then limit else n
    ensures limit < 0 ==> k == if n + limit > 0 then n + limit else 0
  {
    if limit >= 0 then (if limit < n then limit else n)
    else if n + limit > 0 then n + limit else 0
  }

  /** The leaderboard over the guild's rows (in dictionary order): sort, then slice. */
  function Leaderboard(items: seq<Entry>, limit: int): (r: seq<Entry>)
    ensures |r| == SliceLength(|items|, limit)
    ensures SortedByXpDesc(r)
    ensures forall e :: e in r ==> e in items
  {
    var sorted := SortByXp(items);
    assert |sorted| == |multiset(sorted)| == |multiset(items)| == |items|;
    var r := sorted[..SliceLength(|items|, limit)];
    assert forall e :: e in r ==> e in multiset(sorted);
    r
  }

  /** A row that the limit cut off never has more xp than a row that was kept. */
  lemma {:induction false} LeaderboardKeepsTop(items: seq<Entry>, limit: int, e: Entry)
    requires e in items && e !in Leaderboard(items, limit)
    ensures forall k :: 0 <= k < |Leaderboard(items, limit)| ==> XpKey(Leaderboard(items, limit)[k].doc) >= XpKey(e.doc)
  {
    var sorted := SortByXp(items);
    var n := SliceLength(|items|, limit);
    assert e in multiset(sorted);
    assert |sorted| == |multiset(sorted)| == |multiset(items)| == |items|;
    var j :| 0 <= j < |sorted| && sorted[j] == e;
    assert forall k :: 0 <= k < n ==> sorted[..n][k] == sorted[k];
    assert j >= n;
    forall k | 0 <= k < n
      ensures XpKey(sorted[..n][k].doc) >= XpKey(e.doc)
    {
      assert sorted[..n][k] == sorted[k];
    }
  }

  class LevelingStorage {
    /** guild id -> user id -> user record */
    var data: map<GuildId, map<UserId, UserDoc>>
    var settings: map<GuildId, Document>
    var roles: map<GuildId, Document>
    var messages: map<GuildId, Document>
    /** user id -> background URL (not scoped by guild) */
    var backgrounds: map<UserId, string>

    constructor ()
      ensures data == map[] && settings == map[] && roles == map[] && messages == map[] && backgrounds == map[]
    {
      data, settings, roles, messages, backgrounds := map[], map[], map[], map[], map[];
    }

    /** `get_user_data`: the record, or `None` for an unknown guild or user. */
    function GetUserData(g: GuildId, u: UserId): (r: Option<UserDoc>)
      reads this
      ensures r.Some? <==> g in data && u in data[g]
      ensures r.Some? ==> r.value == data[g][u]
    {
      if g in data && u in data[g] then Some(data[g][u]) else None
    }

    /** `set_user_data`: creates the guild map when absent and stores the record; nothing else changes. */
    method SetUserData(g: GuildId, u: UserId, doc: UserDoc)
      modifies this`data
      ensures GetUserData(g, u) == Some(doc)
      ensures forall h, v :: (h, v) != (g, u) ==> GetUserData(h, v) == old(GetUserData(h, v))
      ensures data.Keys == old(data).Keys + {g}
    {
      var inner: map<UserId, UserDoc> := if g in data then data[g] else map[];
      data := data[g := inner[u := doc]];
    }

    /** `delete_user_data`: removes only that user; a no-op when the user is absent. */
    method DeleteUserData(g: GuildId, u: UserId)
      modifies this`data
      ensures GetUserData(g, u) == None
      ensures forall h, v :: (h, v) != (g, u) ==> GetUserData(h, v) == old(GetUserData(h, v))
      ensures old(GetUserData(g, u)) == None ==> data == old(data)
      ensures data.Keys == old(data).Keys
    {
      if g in data && u in data[g] {
        data := data[g := data[g] - {u}];
      }
    }

    /** `get_guild_leaderboard`: the guild's rows sorted by xp (missing xp counts as 0), cut to `limit`. */
    method GetGuildLeaderboard(g: GuildId, limit: int) returns (r: seq<Entry>)
      ensures var users := if g in data then data[g] else map[];
              && |r| == SliceLength(|users|, limit)
              && SortedByXpDesc(r)
              && (forall e :: e in r ==> e.userId in users && e.doc == users[e.userId])
              && (forall i, j :: 0 <= i < j < |r| ==> r[i].userId != r[j].userId)
              && (forall u, k :: u in users && (forall e :: e in r ==> e.userId != u) && 0 <= k < |r|
                    ==> XpKey(r[k].doc) >= XpKey(users[u]))
    {
      var users: map<UserId, UserDoc> := if g in data then data[g] else map[];
      var items := CollectRows(users);
      r := Leaderboard(items, limit);
      DistinctAfterSort(items, limit);
      forall u, k | u in users && (forall e :: e in r ==> e.userId != u) && 0 <= k < |r|
        ensures XpKey(r[k].doc) >= XpKey(users[u])
      {
        var i :| 0 <= i < |items| && items[i].userId == u;
        assert items[i] !in r;
        LeaderboardKeepsTop(items, limit, items[i]);
      }
    }

    /** `get_settings`: the guild's settings, or an empty map for an unknown guild. */
    function GetSettings(g: GuildId): (r: Document)
      reads this
      ensures g in settings ==> r == settings[g]
      ensures g !in settings ==> r == map[]
    {
      if g in settings then settings[g] else map[]
    }

    /** `set_settings`: replaces the guild's whole settings entry. */
    method SetSettings(g: GuildId, doc: Document)
      modifies this`settings
      ensures settings == old(settings)[g := doc]
      ensures GetSettings(g) == doc
    {
      settings := settings[g := doc];
    }

    /** `get_roles`: the guild's level roles, or an empty map for an unknown guild. */
    function GetRoles(g: GuildId): (r: Document)
      reads this
      ensures g in roles ==> r == roles[g]
      ensures g !in roles ==> r == map[]
    {
      if g in roles then roles[g] else map[]
    }

    /** `set_roles`: replaces the guild's whole level-roles entry. */
    method SetRoles(g: GuildId, doc: Document)
      modifies this`roles
      ensures roles == old(roles)[g := doc]
      ensures GetRoles(g) == doc
    {
      roles := roles[g := doc];
    }

    /** `get_messages`: the guild's level-up messages, or an empty map for an unknown guild. */
    function GetMessages(g: GuildId): (r: Document)
      reads this
      ensures g in messages ==> r == messages[g]
      ensures g !in messages ==> r == map[]
    {
      if g in messages then messages[g] else map[]
    }

    /** `set_messages`: replaces the guild's whole level-up-messages entry. */
    method SetMessages(g: GuildId, doc: Document)
      modifies this`messages
      ensures messages == old(messages)[g := doc]
      ensures GetMessages(g) == doc
    {
      messages := messages[g := doc];
    }

    /** `get_background`: keyed by user id only; `None` when unset. */
    function GetBackground(u: UserId): (r: Option<string>)
      reads this
      ensures r.Some? <==> u in backgrounds
      ensures r.Some? ==> r.value == backgrounds[u]
    {
      if u in backgrounds then Some(backgrounds[u]) else None
    }

    /** `set_background`: stores the URL for that user. */
    method SetBackground(u: UserId, url: string)
      modifies this`backgrounds
      ensures backgrounds == old(backgrounds)[u := url]
      ensures GetBackground(u) == Some(url)
    {
      backgrounds := backgrounds[u := url];
    }

    /** `delete_background`: removes that user's URL; a no-op when it is absent. */
    method DeleteBackground(u: UserId)
      modifies this`backgrounds
      ensures backgrounds == old(backgrounds) - {u}
      ensures GetBackground(u) == None
    {
      if u in backgrounds {
        backgrounds := backgrounds - {u};
      }
    }
  }

  /** Lists a guild's rows (one per user, in the dictionary's iteration order). */
  method CollectRows(users: map<UserId, UserDoc>) returns (items: seq<Entry>)
    ensures |items| == |users|
    ensures forall i :: 0 <= i < |items| ==> items[i].userId in users && items[i].doc == users[items[i].userId]
    ensures forall i, j :: 0 <= i < j < |items| ==> items[i].userId != items[j].userId
    ensures forall u :: u in users ==> exists i :: 0 <= i < |items| && items[i].userId == u
  {
    items := [];
    var todo := users.Keys;
    ghost var pos: map<UserId, nat> := map[];
    while todo != {}
      invariant todo <= users.Keys
      invariant pos.Keys == users.Keys - todo
      invariant |items| + |todo| == |users|
      invariant forall v :: v in pos ==> pos[v] < |items| && items[pos[v]].userId == v
      invariant forall i :: 0 <= i < |items| ==> items[i].userId in pos && pos[items[i].userId] == i
      invariant forall i :: 0 <= i < |items| ==> items[i].doc == users[items[i].userId]
      decreases todo
    {
      ghost var pick := ElementOf(todo);
      var u :| u in todo;
      pos := pos[u := |items|];
      items := items + [Entry(u, users[u])];
      todo := todo - {u};
    }
    forall v | v in users
      ensures exists i :: 0 <= i < |items| && items[i].userId == v
    {
      assert items[pos[v]].userId == v;
    }
  }

  /** Sorting and slicing never duplicate a row, so distinct user ids stay distinct. */
  lemma DistinctAfterSort(items: seq<Entry>, limit: int)
    requires forall i, j :: 0 <= i < j < |items| ==> items[i].userId != items[j].userId
    ensures var r := Leaderboard(items, limit);
            forall i, j :: 0 <= i < j < |r| ==> r[i].userId != r[j].userId
  {
    var sorted := SortByXp(items);
    var r := Leaderboard(items, limit);
    forall i, j | 0 <= i < j < |r|
      ensures r[i].userId != r[j].userId
    {
      if r[i].userId == r[j].userId {
        assert r[i] in items && r[j] in items;
        var a :| 0 <= a < |items| && items[a] == r[i];
        var b :| 0 <= b < |items| && items[b] == r[j];
        assert a == b;
        assert r[i] == r[j];
        // the same row twice would make its multiplicity in `sorted` at least 2
        assert r == sorted[..|r|];
        assert sorted[i] == sorted[j];
        MultiplicityTwo(sorted, i, j);
        assert multiset(items)[items[a]] >= 2;
        UniqueIdsMultiplicityOne(items, a);
        assert false;
      }
    }
  }

  lemma MultiplicityTwo(s: seq<Entry>, i: int, j: int)
    requires 0 <= i < j < |s| && s[i] == s[j]
    ensures multiset(s)[s[i]] >= 2
  {
    assert s == s[..i] + [s[i]] + s[i+1..j] + [s[j]] + s[j+1..];
  }

  lemma UniqueIdsMultiplicityOne(s: seq<Entry>, a: int)
    requires 0 <= a < |s|
    requires forall i, j :: 0 <= i < j < |s| ==> s[i].userId != s[j].userId
    ensures multiset(s)[s[a]] == 1
  {
    if |s| > 0 {
      assert s == [s[0]] + s[1..];
      if a == 0 {
        assert s[0] !in s[1..];
        assert multiset(s[1..])[s[0]] == 0;
      } else {
        UniqueIdsMultiplicityOne(s[1..], a - 1);
      }
    }
  }
}

/**
 * The `custom_id` strings of the persistent components: a role button is
 * `role_{role_id}_{message_id}` and a category select menu is
 * `menu_{message_id}_{category_id}`.  Discord routes an interaction back to
 * its view by this string alone, so distinct components must get distinct
 * ids; `ParseCustomId` is the reading that shows they do.
 */
module ComponentIds {
  import opened Common
  import opened Text

  datatype Component =
    | RoleButton(roleId: RoleId, messageId: MessageId)
    | CategoryMenu(messageId: MessageId, categoryId: string)

  /** The `custom_id` a component is registered under. */
  function CustomId(c: Component): (id: string)
    ensures |id| > 6
    ensures c.RoleButton? ==> id[..5] == "role_"
    ensures c.CategoryMenu? ==> id[..5] == "menu_"
  {
    match c
    case RoleButton(r, m) => "role_" + ShowInt(r) + "_" + ShowInt(m)
    case CategoryMenu(m, cat) => "menu_" + ShowInt(m) + "_" + cat
  }

  /** The component a `custom_id` names: a prefix, an integer, `_`, then an integer (button) or any text (menu). */
  function ParseCustomId(s: string): Option<Component> {
    if |s| < 5 then None else ParseTagged(s[..5], s[5..])
  }

  /** The component named by the text `rest` after the five-character prefix `tag`. */
  function ParseTagged(tag: string, rest: string): Option<Component> {
    if tag != "role_" && tag != "menu_" then None
    else
      match IndexOf(rest, '_')
      case None => None
      case Some(i) =>
        match ParseInt(rest[..i])
        case None => None
        case Some(first) =>
          if tag == "menu_" then Some(CategoryMenu(first, rest[i + 1..]))
          else match ParseInt(rest[i + 1..])
            case None => None
            case Some(second) => Some(RoleButton(first, second))
  }

  /** The first separator of `a + [sep] + b` is the one after `a` when `a` has none. */
  lemma IndexOfAfter(a: string, sep: char, b: string)
    requires sep !in a
    ensures IndexOf(a + [sep] + b, sep) == Some(|a|)
  {
    var s := a + [sep] + b;
    assert s[|a|] == sep;
  }

  /** `prefix + str(n) + "_" + tail` reads back as `n` and `tail`. */
  lemma SplitAfterPrefix(prefix: string, n: int, tail: string)
    requires |prefix| == 5
    ensures var rest := (prefix + ShowInt(n) + "_" + tail)[5..];
      && IndexOf(rest, '_') == Some(|ShowInt(n)|)
      && rest[..|ShowInt(n)|] == ShowInt(n)
      && rest[|ShowInt(n)| + 1..] == tail
  {
    var rest := (prefix + ShowInt(n) + "_" + tail)[5..];
    assert rest == ShowInt(n) + ['_'] + tail;
    ShowIntHasNoUnderscore(n);
    IndexOfAfter(ShowInt(n), '_', tail);
  }

  /** After `role_`, an integer, the first `_` and another integer name that button. */
  lemma TaggedButton(rest: string, i: nat, r: int, m: int)
    requires IndexOf(rest, '_') == Some(i)
    requires ParseInt(rest[..i]) == Some(r) && ParseInt(rest[i + 1..]) == Some(m)
    ensures ParseTagged("role_", rest) == Some(RoleButton(r, m))
  {
    assert "role_" != "menu_" by { assert "role_"[0] != "menu_"[0]; }
  }

  /** A role button's `custom_id` reads back as that button. */
  lemma ButtonIdInverts(r: RoleId, m: MessageId)
    ensures ParseCustomId(CustomId(RoleButton(r, m))) == Some(RoleButton(r, m))
  {
    var s := CustomId(RoleButton(r, m));
    var rest := s[5..];
    SplitAfterPrefix("role_", r, ShowInt(m));
    ParseShowInt(r);
    ParseShowInt(m);
    TaggedButton(rest, |ShowInt(r)|, r, m);
  }

  /** A category menu's `custom_id` reads back as that menu. */
  lemma MenuIdInverts(m: MessageId, cat: string)
    ensures ParseCustomId(CustomId(CategoryMenu(m, cat))) == Some(CategoryMenu(m, cat))
  {
    var s := CustomId(CategoryMenu(m, cat));
    var rest := s[5..];
    SplitAfterPrefix("menu_", m, cat);
    ParseShowInt(m);
    assert s[..5] == "menu_";
    assert ParseInt(rest[..|ShowInt(m)|]) == Some(m);
  }

  /** Reading a component's `custom_id` gives back the component. */
  lemma ParseCustomIdInverts(c: Component)
    ensures ParseCustomId(CustomId(c)) == Some(c)
  {
    match c
    case RoleButton(r, m) => ButtonIdInverts(r, m);
    case CategoryMenu(m, cat) => MenuIdInverts(m, cat);
  }

  /** Distinct components never share a `custom_id`: no two buttons, no two menus, and no button and menu collide. */
  lemma CustomIdInjective(c: Component, d: Component)
    requires CustomId(c) == CustomId(d)
    ensures c == d
  {
    ParseCustomIdInverts(c);
    ParseCustomIdInverts(d);
  }
}

/** The configuration editor of the featured-session widget: clicking a session button
    toggles that session in the ordered list of featured ids (at most three, the oldest
    evicted when a fourth is added), the colour pickers replace one entry of
    `customColors`, and the buttons are highlighted from the current configuration. Every
    change is published through the host's `setConfiguration`, modelled as the list of
    published values. */
module SessionEditor {
  import opened Common

  /** The number of sessions the widget features. */
  const Capacity := 3

  /** `findIndex` with `===`: the first position of `id`, or -1. */
  function IndexOf(ids: seq<SessionId>, id: SessionId): (i: int)
    ensures -1 <= i < |ids|
    ensures i == -1 <==> id !in ids
    ensures i >= 0 ==> ids[i] == id && id !in ids[..i]
  {
    if ids == [] then -1
    else if ids[0] == id then 0
    else
      var j := IndexOf(ids[1..], id);
      assert j >= 0 ==> ids[1..][..j] == ids[1..j + 1];
      if j == -1 then -1 else j + 1
  }

  /** The list that `onClickSession` publishes for a click on `id`. */
  function Toggled(ids: seq<SessionId>, id: SessionId): seq<SessionId> {
    var i := IndexOf(ids, id);
    if i == -1 then
      var pushed := ids + [id];
      if |pushed| > Capacity then pushed[1..] else pushed
    else
      ids[..i] + ids[i + 1..]
  }

  /** An id not yet featured is appended at the end; if the list then holds more than
      three ids, exactly the first (oldest) one is dropped. */
  lemma ToggleAbsentAppends(ids: seq<SessionId>, id: SessionId)
    requires id !in ids
    ensures |ids| < Capacity ==> Toggled(ids, id) == ids + [id]
    ensures |ids| >= Capacity ==> Toggled(ids, id) == ids[1..] + [id]
  {
    if |ids| >= Capacity {
      assert (ids + [id])[1..] == ids[1..] + [id];
    }
  }

  /** A featured id is removed at its first occurrence; every other entry keeps its place
      relative to the others. */
  lemma TogglePresentRemovesFirst(ids: seq<SessionId>, id: SessionId)
    requires id in ids
    ensures exists i :: 0 <= i < |ids| && ids[i] == id && id !in ids[..i] &&
                        Toggled(ids, id) == ids[..i] + ids[i + 1..]
  {
    var i := IndexOf(ids, id);
    assert 0 <= i < |ids| && ids[i] == id && id !in ids[..i];
  }

  /** Removing one entry of a list of distinct entries keeps them distinct and drops
      exactly that element. */
  lemma RemoveAtDistinct(ids: seq<SessionId>, i: nat)
    requires Distinct(ids) && i < |ids|
    ensures Distinct(ids[..i] + ids[i + 1..])
    ensures forall x :: x in ids[..i] + ids[i + 1..] <==> x in ids && x != ids[i]
  {
    var r := ids[..i] + ids[i + 1..];
    forall a, b | 0 <= a < b < |r| ensures r[a] != r[b] {
      var a' := if a < i then a else a + 1;
      var b' := if b < i then b else b + 1;
      assert r[a] == ids[a'] && r[b] == ids[b'];
    }
    forall x ensures x in r <==> x in ids && x != ids[i] {
      if x in r {
        var k :| 0 <= k < |r| && r[k] == x;
        var k' := if k < i then k else k + 1;
        assert ids[k'] == x;
      }
      if x in ids && x != ids[i] {
        var k :| 0 <= k < |ids| && ids[k] == x;
        assert k != i;
        if k < i {
          assert r[k] == x;
        } else {
          assert r[k - 1] == x;
        }
      }
    }
  }

  /** On a list of at most three distinct ids, a click flips the clicked id's membership,
      keeps the list distinct and within capacity, and keeps every other id except the
      oldest one when a fourth is added. */
  lemma ToggleKeepsSelectionValid(ids: seq<SessionId>, id: SessionId)
    requires Distinct(ids) && |ids| <= Capacity
    ensures Distinct(Toggled(ids, id)) && |Toggled(ids, id)| <= Capacity
    ensures id in Toggled(ids, id) <==> id !in ids
    ensures forall x :: x != id ==>
              (x in Toggled(ids, id) <==> x in ids && !(id !in ids && |ids| == Capacity && x == ids[0]))
  {
    var r := Toggled(ids, id);
    if id in ids {
      var i := IndexOf(ids, id);
      RemoveAtDistinct(ids, i);
    } else {
      ToggleAbsentAppends(ids, id);
      if |ids| == Capacity {
        var t := ids[1..];
        assert Distinct(t);
        assert forall x :: x in t <==> x in ids && x != ids[0] by {
          forall x ensures x in t <==> x in ids && x != ids[0] {
            if x in ids && x != ids[0] {
              var k :| 0 <= k < |ids| && ids[k] == x;
              assert t[k - 1] == x;
            }
            if x in t {
              var k :| 0 <= k < |t| && t[k] == x;
              assert ids[k + 1] == x;
            }
          }
        }
        assert r == t + [id];
      }
    }
  }

  /** Adding an id to a list with room for it and clicking it again gives the list back. */
  lemma ToggleTwiceRestores(ids: seq<SessionId>, id: SessionId)
    requires id !in ids && |ids| < Capacity
    ensures Toggled(Toggled(ids, id), id) == ids
  {
    var r := ids + [id];
    ToggleAbsentAppends(ids, id);
    assert IndexOf(r, id) == |ids| by {
      assert r[..|ids|] == ids;
    }
    assert r[..|ids|] + r[|ids| + 1..] == ids;
  }

  /** On a full list, adding a further id and clicking it again does not give the list
      back: the oldest id, evicted by the first click, stays lost. */
  lemma ToggleTwiceOnFullListForgetsOldest(ids: seq<SessionId>, id: SessionId)
    requires id !in ids && |ids| >= Capacity
    ensures Toggled(Toggled(ids, id), id) == ids[1..]
  {
    var r := ids[1..] + [id];
    ToggleAbsentAppends(ids, id);
    assert r[..|ids| - 1] == ids[1..] && r[|ids|..] == [];
    assert IndexOf(r, id) == |ids| - 1;
  }

  /** The configuration published after a click on `id`: only `featuredSessionIds`. */
  function ClickConfig(c: Config, id: SessionId): Config {
    Config(Some(Toggled(FeaturedIds(c), id)), None, map[])
  }

  /** The configuration published by a colour change (`v` is the picked colour) or by
      "Use Event Theme" (`v` is `None`): a copy with only `customColors[code]` replaced. */
  function WithColor(c: Config, code: string, v: Option<string>): (r: Config)
    ensures r.featuredSessionIds == c.featuredSessionIds && r.rest == c.rest
    ensures r.customColors.Some? && code in r.customColors.value && r.customColors.value[code] == v
    ensures forall k :: k != code ==>
              (k in r.customColors.value <==> c.customColors.Some? && k in c.customColors.value)
    ensures forall k :: k != code && k in r.customColors.value ==>
              r.customColors.value[k] == c.customColors.value[k]
  {
    c.(customColors := Some(c.customColors.GetOr(map[])[code := v]))
  }

  // ---------------------------------------------------------------------------
  // Highlighting

  /** A session button is highlighted when its id is featured. */
  predicate SessionHighlighted(c: Config, id: SessionId) {
    id in FeaturedIds(c)
  }

  /** "Use Event Theme" is highlighted when no custom colour is set for the code. */
  predicate ThemeHighlighted(c: Config, code: string) {
    c.customColors.None? || code !in c.customColors.value || c.customColors.value[code].None?
  }

  /** Clicking a session on a valid selection flips that session's highlight. */
  lemma ClickFlipsHighlight(c: Config, id: SessionId)
    requires Distinct(FeaturedIds(c))
    ensures SessionHighlighted(ClickConfig(c, id), id) <==> !SessionHighlighted(c, id)
  {
    var ids := FeaturedIds(c);
    if id in ids {
      RemoveAtDistinct(ids, IndexOf(ids, id));
    } else {
      ToggleAbsentAppends(ids, id);
    }
  }

  /** "Use Event Theme" highlights its own button, picking a colour clears that highlight,
      and neither changes the highlight of any other colour code. */
  lemma ColorChangeHighlights(c: Config, code: string, v: Option<string>, other: string)
    requires other != code
    ensures ThemeHighlighted(WithColor(c, code, v), code) <==> v.None?
    ensures ThemeHighlighted(WithColor(c, code, v), other) <==> ThemeHighlighted(c, other)
  {
  }

  // ---------------------------------------------------------------------------
  // The editor

  class Editor {
    /** `_config`; `None` when the host gave no initial configuration. */
    var config: Option<Config>
    /** Every value passed to `setConfiguration`, oldest first. */
    var published: seq<Config>

    constructor (initialConfiguration: Option<Config>)
      ensures config == initialConfiguration
      ensures published == if initialConfiguration.None? then [Config(Some([]), None, map[])] else []
    {
      config := initialConfiguration;
      if initialConfiguration.None? {
        published := [Config(Some([]), None, map[])];
      } else {
        published := [];
      }
    }

    /** `onConfigurationUpdate`: the host hands back a new configuration. */
    method OnConfigurationUpdate(newConfig: Config)
      modifies this`config
      ensures config == Some(newConfig)
    {
      config := Some(newConfig);
    }

    /** `onClickSession`. Without a configuration the handler throws before publishing
        (`ok` is false). The stored configuration is never changed. */
    method OnClickSession(sessionId: SessionId) returns (ok: bool)
      modifies this`published
      ensures ok <==> config.Some?
      ensures published == if ok then old(published) + [ClickConfig(config.value, sessionId)]
                           else old(published)
    {
      if config.None? {
        return false;
      }
      ok := true;
      // a copy of the stored list, or a new empty one
      var featuredSessionIds := FeaturedIds(config.value);
      var sessionIdIndex := IndexOf(featuredSessionIds, sessionId);
      if sessionIdIndex == -1 {
        featuredSessionIds := featuredSessionIds + [sessionId];
        if |featuredSessionIds| > Capacity {
          featuredSessionIds := featuredSessionIds[1..];
        }
      } else {
        featuredSessionIds := featuredSessionIds[..sessionIdIndex] + featuredSessionIds[sessionIdIndex + 1..];
      }
      published := published + [Config(Some(featuredSessionIds), None, map[])];
    }

    /** The colour picker's `onchange` for `colorCode`, with the picked `value`. */
    method OnColorChange(colorCode: string, value: string) returns (ok: bool)
      modifies this`published
      ensures ok <==> config.Some?
      ensures published == if ok then old(published) + [WithColor(config.value, colorCode, Some(value))]
                           else old(published)
    {
      ok := SetColor(colorCode, Some(value));
    }

    /** The "Use Event Theme" button for `colorCode`. */
    method OnUseEventTheme(colorCode: string) returns (ok: bool)
      modifies this`published
      ensures ok <==> config.Some?
      ensures published == if ok then old(published) + [WithColor(config.value, colorCode, None)]
                           else old(published)
    {
      ok := SetColor(colorCode, None);
    }

    /** Both colour handlers: spread-copy the configuration and its `customColors`, assign
        one key of the copy, publish it. */
    method SetColor(colorCode: string, value: Option<string>) returns (ok: bool)
      modifies this`published
      ensures ok <==> config.Some?
      ensures published == if ok then old(published) + [WithColor(config.value, colorCode, value)]
                           else old(published)
    {
      if config.None? {
        return false;
      }
      ok := true;
      var current := config.value;
      var colors := current.customColors.GetOr(map[]);
      colors := colors[colorCode := value];
      var newConfig := current.(customColors := Some(colors));
      published := published + [newConfig];
    }
  }
}

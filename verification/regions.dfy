/**
 * Region-name canonicalisation, written twice in the source with the same
 * shape: in the listener for classifier output and in the bot's `status`,
 * `subscribe` and `unsubscribe` commands. An exact member of the region list
 * is kept; otherwise the first entry whose lower-cased text contains the
 * lower-cased raw name is chosen; otherwise the name is unknown.
 */
module Regions {
  import opened Wrappers
  import opened PyText

  /** `raw.lower() in name.lower()`: the raw name is a piece of the entry, not the reverse. */
  predicate LooseMatch(raw: string, name: string) {
    Contains(Lower(name), Lower(raw))
  }

  /** Position of the first entry the raw name loosely matches. */
  function FirstLooseMatch(raw: string, names: seq<string>): (r: Option<nat>)
    ensures r.None? <==> forall i :: 0 <= i < |names| ==> !LooseMatch(raw, names[i])
    ensures r.Some? ==> r.value < |names| && LooseMatch(raw, names[r.value])
    ensures r.Some? ==> forall j :: 0 <= j < r.value ==> !LooseMatch(raw, names[j])
  {
    FirstWhere(names, name => LooseMatch(raw, name))
  }

  /** Position of the first entry satisfying `p`, scanning from the front. */
  function FirstWhere(names: seq<string>, p: string -> bool): (r: Option<nat>)
    ensures r.None? <==> forall i :: 0 <= i < |names| ==> !p(names[i])
    ensures r.Some? ==> r.value < |names| && p(names[r.value])
    ensures r.Some? ==> forall j :: 0 <= j < r.value ==> !p(names[j])
  {
    if |names| == 0 then None
    else if p(names[0]) then Some(0)
    else
      match FirstWhere(names[1..], p)
      case None => None
      case Some(i) => Some(i + 1)
  }

  /** The canonical region for a raw name, or `None` when it names no region. */
  function Canonicalise(raw: string, names: seq<string>): (r: Option<string>)
    ensures r.Some? ==> r.value in names
    ensures raw in names ==> r == Some(raw)
    ensures r.Some? && raw !in names ==> LooseMatch(raw, r.value)
    ensures r.None? <==> raw !in names && forall i :: 0 <= i < |names| ==> !LooseMatch(raw, names[i])
  {
    if raw in names then Some(raw)
    else
      match FirstLooseMatch(raw, names)
      case None => None
      case Some(i) => Some(names[i])
  }

  /** Every name loosely matches itself. */
  lemma LooseMatchSelf(name: string)
    ensures LooseMatch(name, name)
  {
    var l := Lower(name);
    assert l[0..|l|] == l;
    ContainsAt(l, l, 0);
  }

  /** A name that is not a list entry resolves to the FIRST entry containing it. */
  lemma CanonicalIsFirstMatch(raw: string, names: seq<string>, i: nat)
    requires raw !in names
    requires i < |names| && LooseMatch(raw, names[i])
    requires forall j :: 0 <= j < i ==> !LooseMatch(raw, names[j])
    ensures Canonicalise(raw, names) == Some(names[i])
  {
    var r := FirstLooseMatch(raw, names);
    assert r == Some(i);
  }

  /** A name contained in exactly one entry resolves to that entry. */
  lemma UniqueMatchResolves(raw: string, names: seq<string>, i: nat)
    requires i < |names| && LooseMatch(raw, names[i])
    requires forall j :: 0 <= j < |names| && j != i ==> !LooseMatch(raw, names[j])
    ensures Canonicalise(raw, names) == Some(names[i])
  {
    if raw in names {
      var k :| 0 <= k < |names| && names[k] == raw;
      LooseMatchSelf(raw);
      assert k == i;
    } else {
      CanonicalIsFirstMatch(raw, names, i);
    }
  }

  /** The empty name is contained in every entry, so it resolves to the first one. */
  lemma EmptyNameResolvesToFirst(names: seq<string>)
    requires |names| > 0 && "" !in names
    ensures Canonicalise("", names) == Some(names[0])
  {
    ContainsAt(Lower(names[0]), Lower(""), 0);
    CanonicalIsFirstMatch("", names, 0);
  }
}

/** Group lists of an account: the `groups` field of the Account class,
    a list of group names that must stay free of duplicates. */
module Membership {

  /** No group name occurs twice in the list. */
  predicate NoDuplicates(s: seq<string>) {
    forall i, j :: 0 <= i < j < |s| ==> s[i] != s[j]
  }

  /** The set of groups in the list. */
  function Members(s: seq<string>): set<string> {
    set g | g in s
  }

  /** Position of the first occurrence of `x` (PHP's `array_search`). */
  function IndexOf(s: seq<string>, x: string): (i: nat)
    requires x in s
    ensures i < |s| && s[i] == x
    ensures forall j :: 0 <= j < i ==> s[j] != x
  {
    if s[0] == x then 0 else 1 + IndexOf(s[1..], x)
  }

  /** The list after `add_group(g)`: `g` is appended unless it is already a member. */
  function WithGroup(gs: seq<string>, g: string): (r: seq<string>)
    ensures g in gs ==> r == gs
    ensures g !in gs ==> |r| == |gs| + 1 && r[..|gs|] == gs && r[|gs|] == g
    ensures forall x :: x in r <==> x in gs || x == g
    ensures NoDuplicates(gs) ==> NoDuplicates(r)
  {
    if g in gs then gs else gs + [g]
  }

  /** The list after `remove_group(g)`: the first occurrence of `g`, if any, is taken out. */
  function WithoutGroup(gs: seq<string>, g: string): (r: seq<string>)
    ensures g !in gs ==> r == gs
    ensures |r| == if g in gs then |gs| - 1 else |gs|
    ensures forall x :: x != g ==> (x in r <==> x in gs)
    ensures NoDuplicates(gs) ==> NoDuplicates(r) && g !in r
  {
    if g in gs then
      var i := IndexOf(gs, g);
      assert gs == gs[..i] + [g] + gs[i + 1..];
      gs[..i] + gs[i + 1..]
    else
      gs
  }

  /** Adding a group the account did not have and removing it again gives back
      the original list, in its original order. */
  lemma AddThenRemove(gs: seq<string>, g: string)
    requires g !in gs
    ensures WithoutGroup(WithGroup(gs, g), g) == gs
  {
    var added := gs + [g];
    assert IndexOf(added, g) == |gs|;
    assert added[..|gs|] == gs;
  }

  /** Removing a group and adding it back keeps the same members (the group moves
      to the end of the list). */
  lemma RemoveThenAdd(gs: seq<string>, g: string)
    requires NoDuplicates(gs)
    ensures NoDuplicates(WithGroup(WithoutGroup(gs, g), g))
    ensures forall x :: x in WithGroup(WithoutGroup(gs, g), g) <==> x in gs || x == g
  {
  }

  /** The groups `create` gives a new account: the requested ones, then "user"
      unless requested, then "root" for the first account unless already there. */
  function InitialGroups(requested: seq<string>, firstAccount: bool): (r: seq<string>)
    ensures "user" in r
    ensures "root" in r <==> firstAccount || "root" in requested
    ensures forall x :: x in r <==> x in requested || x == "user" || (firstAccount && x == "root")
    ensures |requested| <= |r| && r[..|requested|] == requested
    ensures NoDuplicates(requested) ==> NoDuplicates(r)
  {
    var withUser := WithGroup(requested, "user");
    if firstAccount then WithGroup(withUser, "root") else withUser
  }
}

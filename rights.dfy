/** Rights resolution: the rights of an account are the duplicate-free union of
    the rights its groups grant. A group's rights come from the Group
    collaborator, given here as the function `rightsOf`. */
module Rights {
  import opened Membership
  import opened Table

  /** PHP's `array_unique`: keep the first occurrence of every value, in order. */
  function Dedup(s: seq<string>): (r: seq<string>)
    ensures NoDuplicates(r)
    ensures forall x :: x in r <==> x in s
    ensures |r| <= |s|
  {
    if s == [] then []
    else
      var u := Dedup(s[..|s| - 1]);
      var last := s[|s| - 1];
      assert s == s[..|s| - 1] + [last];
      if last in u then u else u + [last]
  }

  /** Keeping only first occurrences changes nothing in a list that has no duplicates. */
  lemma {:induction false} DedupOfUnique(s: seq<string>)
    requires NoDuplicates(s)
    ensures Dedup(s) == s
  {
    if s != [] {
      var p := s[..|s| - 1];
      assert NoDuplicates(p);
      DedupOfUnique(p);
      assert s[|s| - 1] !in p;
      assert s == p + [s[|s| - 1]];
    }
  }

  /** `array_unique(array_merge(acc, more))`. */
  function Merge(acc: seq<string>, more: seq<string>): (r: seq<string>)
    ensures NoDuplicates(r)
    ensures forall x :: x in r <==> x in acc || x in more
  {
    Dedup(acc + more)
  }

  /** Some group of the list grants right `x`. */
  predicate GrantedBy(gs: seq<string>, x: string, rightsOf: string -> seq<string>) {
    exists g :: g in gs && x in rightsOf(g)
  }

  /** The rights accumulated from `acc` by merging in each group of `gs`, in order. */
  function Accumulate(acc: seq<string>, gs: seq<string>, rightsOf: string -> seq<string>): (r: seq<string>)
    ensures NoDuplicates(acc) ==> NoDuplicates(r)
    ensures forall x :: x in r <==> x in acc || GrantedBy(gs, x, rightsOf)
  {
    if gs == [] then acc
    else
      var p := gs[..|gs| - 1];
      var g := gs[|gs| - 1];
      assert gs == p + [g];
      assert forall x :: GrantedBy(gs, x, rightsOf) <==> GrantedBy(p, x, rightsOf) || x in rightsOf(g);
      Merge(Accumulate(acc, p, rightsOf), rightsOf(g))
  }

  /** What `rights(login)` computes over the whole table: every record with the
      login contributes the rights of its groups. */
  function StoreRights(a: seq<Record>, login: string, rightsOf: string -> seq<string>): (r: seq<string>)
    ensures NoDuplicates(r)
    ensures forall x :: x in r <==> exists i :: 0 <= i < |a| && a[i].login == login && GrantedBy(a[i].groups, x, rightsOf)
  {
    if a == [] then []
    else
      var p := a[..|a| - 1];
      var rec := a[|a| - 1];
      var prev := StoreRights(p, login, rightsOf);
      assert forall i :: 0 <= i < |p| ==> p[i] == a[i];
      if rec.login == login then Accumulate(prev, rec.groups, rightsOf) else prev
  }

  /** On a table with unique logins, `x` is a right of the account exactly when
      one of that account's groups grants it. */
  lemma AccountRights(a: seq<Record>, k: nat, rightsOf: string -> seq<string>, x: string)
    requires UniqueLogins(a) && k < |a|
    ensures x in StoreRights(a, a[k].login, rightsOf) <==> GrantedBy(a[k].groups, x, rightsOf)
  {
    if x in StoreRights(a, a[k].login, rightsOf) {
      var i :| 0 <= i < |a| && a[i].login == a[k].login && GrantedBy(a[i].groups, x, rightsOf);
      assert i == k;
    }
  }

  /** No matching account, no rights. */
  lemma NoAccountNoRights(a: seq<Record>, login: string, rightsOf: string -> seq<string>)
    requires !HasLogin(a, login)
    ensures StoreRights(a, login, rightsOf) == []
  {
  }

  /** The order of the groups does not matter: two group lists with the same
      members give the same rights. */
  lemma GroupOrderIrrelevant(gs1: seq<string>, gs2: seq<string>, rightsOf: string -> seq<string>, x: string)
    requires forall g :: g in gs1 <==> g in gs2
    ensures x in Accumulate([], gs1, rightsOf) <==> x in Accumulate([], gs2, rightsOf)
  {
    if GrantedBy(gs1, x, rightsOf) {
      var g :| g in gs1 && x in rightsOf(g);
      assert g in gs2;
    }
    if GrantedBy(gs2, x, rightsOf) {
      var g :| g in gs2 && x in rightsOf(g);
      assert g in gs1;
    }
  }

  /** The three rights of the worked example below are distinct. */
  lemma ExampleRightsDistinct()
    ensures NoDuplicates(["view_photos", "manage_users", "manage_photos"])
  {
    assert "manage_users"[7] != "manage_photos"[7];
    assert "view_photos"[0] != "manage_photos"[0];
    assert "view_photos"[0] != "manage_users"[0];
  }

  /** The two merges of the worked example below. */
  lemma ExampleMerges()
    ensures Merge([], ["view_photos"]) == ["view_photos"]
    ensures Merge(["view_photos"], ["manage_users", "manage_photos"]) == ["view_photos", "manage_users", "manage_photos"]
  {
    var view: seq<string> := ["view_photos"];
    var all: seq<string> := ["view_photos", "manage_users", "manage_photos"];
    ExampleRightsDistinct();
    DedupOfUnique(view);
    DedupOfUnique(all);
    assert [] + view == view;
    assert view + ["manage_users", "manage_photos"] == all;
  }

  /** Folding alice's and bob's groups in the worked example below. */
  lemma ExampleAccumulate(rightsOf: string -> seq<string>)
    requires rightsOf("root") == ["manage_users", "manage_photos"]
    requires rightsOf("user") == ["view_photos"]
    ensures Accumulate([], ["user"], rightsOf) == ["view_photos"]
    ensures Accumulate([], ["user", "root"], rightsOf) == ["view_photos", "manage_users", "manage_photos"]
  {
    ExampleMerges();
    var gs: seq<string> := ["user", "root"];
    assert gs[..1] == ["user"];
    assert Accumulate([], ["user"], rightsOf) == Merge([], rightsOf("user"));
  }

  /** A worked example: alice is in "user" and "root", bob only in "user". */
  lemma AliceAndBob(rightsOf: string -> seq<string>)
    requires rightsOf("root") == ["manage_users", "manage_photos"]
    requires rightsOf("user") == ["view_photos"]
    ensures var a := [Record("alice", "", "", "", ["user", "root"]), Record("bob", "", "", "", ["user"])];
      && StoreRights(a, "alice", rightsOf) == ["view_photos", "manage_users", "manage_photos"]
      && StoreRights(a, "bob", rightsOf) == ["view_photos"]
  {
    var alice := Record("alice", "", "", "", ["user", "root"]);
    var bob := Record("bob", "", "", "", ["user"]);
    var a := [alice, bob];
    ExampleAccumulate(rightsOf);
    assert a[..1] == [alice];
    assert [alice][..0] == [];
    assert StoreRights([alice], "alice", rightsOf) == Accumulate([], alice.groups, rightsOf);
    assert StoreRights([alice], "bob", rightsOf) == [];
  }
}

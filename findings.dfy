/** Operations of Account.class.php as the code is written, beside the
    behaviour its comments promise (which the rest of the model uses). */
module AsWritten {
  import opened Membership
  import opened Table

  /** `delete` as written: the loop only unsets its own loop variable, so the
      table that is written back is the table that was read. */
  function DeleteAsWritten(a: seq<Record>, login: string): seq<Record> {
    a
  }

  /** Deleting a present login as written leaves it present, while the
      intended delete (`Without`) removes it. */
  lemma DeleteAsWrittenKeepsLogin(a: seq<Record>, login: string)
    requires HasLogin(a, login)
    ensures HasLogin(DeleteAsWritten(a, login), login)
    ensures !HasLogin(Without(a, login), login)
  {
  }

  /** The groups `create` builds as written: "user" is appended unconditionally.
      The `catch` that would append "root" for the first account never runs,
      because reading `Settings::$accounts_file` does not throw. */
  function CreateGroupsAsWritten(requested: seq<string>): seq<string> {
    requested + ["user"]
  }

  /** Asking for "user" explicitly gives a group list with "user" twice, against
      the "No duplicates" rule of the groups field; `InitialGroups` keeps it once. */
  lemma CreateGroupsAsWrittenDuplicates()
    ensures !NoDuplicates(CreateGroupsAsWritten(["user"]))
    ensures InitialGroups(["user"], false) == ["user"]
  {
    var gs := CreateGroupsAsWritten(["user"]);
    assert gs[0] == gs[1];
  }

  /** As written, the first account never receives "root" unless the caller
      asks for it; the intended groups of the first account always hold it. */
  lemma FirstCreateAsWrittenNoRoot(requested: seq<string>)
    requires "root" !in requested
    ensures "root" !in CreateGroupsAsWritten(requested)
    ensures "root" in InitialGroups(requested, true)
  {
    assert "root"[0] != "user"[0];
  }

  /** An `<account>` element as `save` writes it: the children of its `<groups>`
      element, and the `<group>` elements that sit directly under `<account>`. */
  datatype AccountElement = AccountElement(login: string, password: string, name: string, email: string,
                                           groupsChildren: seq<string>, strayGroups: seq<string>)

  /** What the constructor and `rights` read back: the groups are the children of `<groups>`. */
  function ReadBack(e: AccountElement): Record {
    Record(e.login, e.password, e.name, e.email, e.groupsChildren)
  }

  /** `save` as written, for the element of the saved login (absent or present):
      `<groups>` is removed and added again empty, and each group is added as a
      new `<group>` under `<account>`, beside those a former save left there. */
  function SaveElementAsWritten(existing: Option<AccountElement>, rec: Record): AccountElement {
    var stray := if existing.Some? then existing.value.strayGroups else [];
    AccountElement(rec.login, rec.password, rec.name, rec.email, [], stray + rec.groups)
  }

  /** As written, an account saved with groups reads back with none, and a
      second save of the same account doubles the stray `<group>` elements;
      the intended save (`Upsert`) stores the groups and is idempotent. */
  lemma SaveAsWrittenLosesGroups(a: seq<Record>, rec: Record)
    requires UniqueLogins(a) && rec.groups != []
    ensures ReadBack(SaveElementAsWritten(None, rec)).groups == []
    ensures ReadBack(SaveElementAsWritten(None, rec)) != rec
    ensures var once := SaveElementAsWritten(None, rec);
      SaveElementAsWritten(Some(once), rec).strayGroups == rec.groups + rec.groups
    ensures var r := Upsert(a, rec);
      forall i :: 0 <= i < |r| && r[i].login == rec.login ==> r[i].groups == rec.groups
    ensures Upsert(Upsert(a, rec), rec) == Upsert(a, rec)
  {
    UpsertIdempotent(a, rec);
    if HasLogin(a, rec.login) {
      UpsertOverwrites(a, rec);
    } else {
      var r := Upsert(a, rec);
      assert forall i :: 0 <= i < |a| ==> r[i] == a[i];
    }
  }
}

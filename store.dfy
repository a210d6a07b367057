/** The Account class of PhotoShow and the accounts file it reads and rewrites.
    The file is modelled as an in-memory table (`AccountStore.accounts`) plus a
    flag saying whether the file exists; the Group collaborator is `Groups`. */
module Store {
  import opened Membership
  import opened Table
  import opened Rights

  /** The exceptions the account operations raise. */
  datatype Error = NotFound | AlreadyExists | StoreUnavailable

  datatype Result<T> = Success(value: T) | Failure(error: Error)

  datatype Outcome = Pass | Fail(error: Error)

  /** The Group collaborator: the set of groups that have a durable record,
      and the rights each group grants. */
  class Groups {
    ghost var known: set<string>
    const rightsOf: string -> seq<string>

    constructor (ghost existing: set<string>, rightsOf: string -> seq<string>)
      ensures known == existing && this.rightsOf == rightsOf
    {
      known := existing;
      this.rightsOf := rightsOf;
    }

    /** `new Group($name)` followed by `save()`: create the group if absent. */
    method Ensure(name: string)
      modifies this
      ensures known == old(known) + {name}
    {
      known := known + {name};
    }

    /** Ensure, one by one, that every group of the list exists. */
    method EnsureAll(gs: seq<string>)
      modifies this
      ensures known == old(known) + Members(gs)
    {
      var k := 0;
      while k < |gs|
        invariant 0 <= k <= |gs|
        invariant known == old(known) + Members(gs[..k])
      {
        assert gs[..k + 1] == gs[..k] + [gs[k]];
        Ensure(gs[k]);
        k := k + 1;
      }
      assert gs[..k] == gs;
    }
  }

  /** An account held in memory: a detached copy of a record, edited in place
      and written back with `AccountStore.Save`. */
  class Account {
    var login: string
    var password: string
    var name: string
    var email: string
    var groups: seq<string>

    /** The group list has no duplicates. */
    ghost predicate Valid()
      reads this
    {
      NoDuplicates(groups)
    }

    /** The record this account is saved as. */
    function AsRecord(): Record
      reads this
    {
      Record(login, password, name, email, groups)
    }

    constructor (rec: Record)
      ensures AsRecord() == rec
      ensures NoDuplicates(rec.groups) ==> Valid()
    {
      login, password, name, email, groups := rec.login, rec.password, rec.name, rec.email, rec.groups;
    }

    /** `add_group`: join `group` unless already a member; a new membership
        makes sure the group itself exists. */
    method AddGroup(group: string, registry: Groups)
      requires Valid()
      modifies this`groups, registry
      ensures Valid()
      ensures groups == WithGroup(old(groups), group)
      ensures registry.known == if group in old(groups) then old(registry.known) else old(registry.known) + {group}
    {
      if group !in groups {
        groups := groups + [group];
        registry.Ensure(group);
      }
    }

    /** `remove_group`: leave `group` if a member (its one occurrence is taken out). */
    method RemoveGroup(group: string)
      requires Valid()
      modifies this`groups
      ensures Valid()
      ensures groups == WithoutGroup(old(groups), group)
      ensures group !in groups
    {
      if group in groups {
        var id := IndexOf(groups, group);
        groups := groups[..id] + groups[id + 1..];
      }
    }
  }

  /** The accounts file: its records in file order, and whether it exists. */
  class AccountStore {
    var storeExists: bool
    var accounts: seq<Record>
    /** The password digest (`sha1`), left uninterpreted. */
    const digest: string -> string

    /** The table invariant of the accounts file. */
    ghost predicate Valid()
      reads this
    {
      Consistent(storeExists, accounts)
    }

    constructor (digest: string -> string, storeExists: bool, accounts: seq<Record>)
      requires Consistent(storeExists, accounts)
      ensures Valid()
      ensures this.digest == digest && this.storeExists == storeExists && this.accounts == accounts
    {
      this.digest := digest;
      this.storeExists := storeExists;
      this.accounts := accounts;
    }

    /** `Account::password`: the stored form of a plain-text password. */
    function Password(plain: string): string {
      digest(plain)
    }

    /** `exists`: an absent file means no accounts; otherwise scan for the login. */
    method Exists(login: string) returns (b: bool)
      ensures b <==> storeExists && HasLogin(accounts, login)
    {
      if !storeExists {
        return false;
      }
      var i := 0;
      while i < |accounts|
        invariant 0 <= i <= |accounts|
        invariant forall j :: 0 <= j < i ==> accounts[j].login != login
      {
        if accounts[i].login == login {
          return true;
        }
        i := i + 1;
      }
      return false;
    }

    /** The constructor `new Account($login)`: the first record with that login.
        An absent file has no records to scan, so the login is not found. */
    method Find(login: string) returns (r: Result<Record>)
      ensures r.Success? <==> storeExists && HasLogin(accounts, login)
      ensures r.Failure? ==> r.error == NotFound
      ensures r.Success? ==> r.value.login == login
      ensures r.Success? ==> Locate(accounts, login).Some? && r.value == accounts[Locate(accounts, login).value]
    {
      if !storeExists {
        return Failure(NotFound);
      }
      var i := 0;
      while i < |accounts|
        invariant 0 <= i <= |accounts|
        invariant forall j :: 0 <= j < i ==> accounts[j].login != login
      {
        if accounts[i].login == login {
          LocateFirst(accounts, login, i);
          return Success(accounts[i]);
        }
        i := i + 1;
      }
      return Failure(NotFound);
    }

    /** `findAll`: one entry per record, in file order, each with its own login
        and groups; an absent file gives no entries. */
    method FindAll() returns (all: seq<Record>)
      ensures !storeExists ==> all == []
      ensures storeExists ==> |all| == |accounts| && forall i :: 0 <= i < |accounts| ==> all[i] == accounts[i]
    {
      all := [];
      if !storeExists {
        return;
      }
      var i := 0;
      while i < |accounts|
        invariant 0 <= i <= |accounts|
        invariant all == accounts[..i]
      {
        all := all + [accounts[i]];
        i := i + 1;
      }
    }

    /** `rights`: merge, with `array_unique(array_merge(...))`, the rights of every
        group of every record that has the login; an absent file gives no rights. */
    method Rights(login: string, registry: Groups) returns (r: seq<string>)
      ensures !storeExists ==> r == []
      ensures storeExists ==> r == StoreRights(accounts, login, registry.rightsOf)
    {
      if !storeExists {
        return [];
      }
      var rights: seq<string> := [];
      var i := 0;
      while i < |accounts|
        invariant 0 <= i <= |accounts|
        invariant rights == StoreRights(accounts[..i], login, registry.rightsOf)
      {
        assert accounts[..i + 1][..i] == accounts[..i];
        if accounts[i].login == login {
          var gs := accounts[i].groups;
          ghost var start := rights;
          var j := 0;
          while j < |gs|
            invariant 0 <= j <= |gs|
            invariant rights == Accumulate(start, gs[..j], registry.rightsOf)
          {
            assert gs[..j + 1][..j] == gs[..j];
            rights := Merge(rights, registry.rightsOf(gs[j]));
            j := j + 1;
          }
          assert gs[..j] == gs;
        }
        i := i + 1;
      }
      assert accounts[..i] == accounts;
      return rights;
    }

    /** `save`: upsert the account's record by login, then make sure every one
        of its groups exists. An absent file leaves nothing to write into. */
    method Save(acc: Account, registry: Groups) returns (o: Outcome)
      requires Valid() && acc.Valid()
      modifies this`accounts, registry
      ensures Valid()
      ensures !storeExists ==> o == Fail(StoreUnavailable) && accounts == old(accounts)
      ensures !storeExists ==> registry.known == old(registry.known)
      ensures storeExists ==> o == Pass && accounts == Upsert(old(accounts), acc.AsRecord())
      ensures storeExists ==> registry.known == old(registry.known) + Members(acc.groups)
    {
      if !storeExists {
        return Fail(StoreUnavailable);
      }
      var rec := acc.AsRecord();
      var i := 0;
      var found := false;
      while i < |accounts|
        invariant 0 <= i <= |accounts|
        invariant forall j :: 0 <= j < i ==> accounts[j].login != rec.login
      {
        if accounts[i].login == rec.login {
          found := true;
          break;
        }
        i := i + 1;
      }
      UpsertKeepsConsistent(accounts, rec);
      if found {
        LocateFirst(accounts, rec.login, i);
        accounts := accounts[i := rec];
      } else {
        accounts := accounts + [rec];
      }
      // Create the groups
      registry.EnsureAll(rec.groups);
      return Pass;
    }

    /** `delete`: remove the records with this login, keeping the others in order.
        An absent file leaves nothing to write back. */
    method Delete(login: string) returns (o: Outcome)
      requires Valid()
      modifies this`accounts
      ensures Valid()
      ensures !storeExists ==> o == Fail(StoreUnavailable) && accounts == old(accounts)
      ensures storeExists ==> o == Pass && accounts == Without(old(accounts), login)
    {
      if !storeExists {
        return Fail(StoreUnavailable);
      }
      var kept: seq<Record> := [];
      var i := 0;
      while i < |accounts|
        invariant 0 <= i <= |accounts|
        invariant kept == Without(accounts[..i], login)
      {
        assert accounts[..i + 1][..i] == accounts[..i];
        if accounts[i].login != login {
          kept := kept + [accounts[i]];
        }
        i := i + 1;
      }
      assert accounts[..i] == accounts;
      WithoutKeepsConsistent(accounts, login);
      accounts := kept;
      return Pass;
    }

    /** `create`: refuse an existing login; otherwise add "user", bootstrap the
        file with "root" for the first account, digest the password and save. */
    method Create(login: string, plain: string, groups: seq<string>, name: string, email: string, registry: Groups)
      returns (o: Outcome)
      requires Valid() && NoDuplicates(groups)
      modifies this`accounts, this`storeExists, registry
      ensures Valid()
      ensures old(storeExists && HasLogin(accounts, login)) ==>
        o == Fail(AlreadyExists) && storeExists && accounts == old(accounts) && registry.known == old(registry.known)
      ensures !old(storeExists && HasLogin(accounts, login)) ==>
        o == Pass && storeExists &&
        accounts == old(accounts) + [Record(login, Password(plain), name, email, InitialGroups(groups, !old(storeExists)))]
      ensures !old(storeExists && HasLogin(accounts, login)) ==>
        registry.known == old(registry.known) + Members(InitialGroups(groups, !old(storeExists)))
    {
      var taken := Exists(login);
      if taken {
        return Fail(AlreadyExists);
      }
      // All users belong to the "user" group
      var gs := WithGroup(groups, "user");
      if !storeExists {
        // No accounts file: create it, and make this account root
        storeExists := true;
        accounts := [];
        gs := WithGroup(gs, "root");
      }
      var acc := new Account(Record(login, Password(plain), name, email, gs));
      var saved := Save(acc, registry);
      assert saved == Pass;
      return Pass;
    }
  }
}

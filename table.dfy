/** The account table: the records of the accounts file, in file order, keyed by login. */
module Table {
  import opened Membership

  datatype Option<T> = None | Some(value: T)

  /** One `<account>` entry of the accounts file. */
  datatype Record = Record(login: string, password: string, name: string, email: string, groups: seq<string>)

  /** Some record has this login. */
  predicate HasLogin(a: seq<Record>, login: string) {
    exists i :: 0 <= i < |a| && a[i].login == login
  }

  /** No two records share a login: the login is the key of the table. */
  predicate UniqueLogins(a: seq<Record>) {
    forall i, j :: 0 <= i < j < |a| ==> a[i].login != a[j].login
  }

  /** Every record's group list is free of duplicates. */
  predicate GroupListsValid(a: seq<Record>) {
    forall i :: 0 <= i < |a| ==> NoDuplicates(a[i].groups)
  }

  /** The invariant of the stored table; a store whose file is absent holds no records. */
  predicate Consistent(storeExists: bool, a: seq<Record>) {
    UniqueLogins(a) && GroupListsValid(a) && (!storeExists ==> a == [])
  }

  /** Position of the first record with this login, as found by a front-to-back scan. */
  function Locate(a: seq<Record>, login: string): (k: Option<nat>)
    ensures k.Some? <==> HasLogin(a, login)
    ensures k.Some? ==> k.value < |a| && a[k.value].login == login
    ensures k.Some? ==> forall j :: 0 <= j < k.value ==> a[j].login != login
  {
    if a == [] then None
    else if a[0].login == login then Some(0)
    else
      match Locate(a[1..], login)
      case None => None
      case Some(k) => Some(k + 1)
  }

  /** The first record with the login is the one `Locate` finds. */
  lemma LocateFirst(a: seq<Record>, login: string, k: nat)
    requires k < |a| && a[k].login == login
    requires forall j :: 0 <= j < k ==> a[j].login != login
    ensures Locate(a, login) == Some(k)
  {
    assert HasLogin(a, login);
  }

  /** Upsert keyed by login: overwrite the first record with the same login, or append. */
  function Upsert(a: seq<Record>, rec: Record): (r: seq<Record>)
    ensures !HasLogin(a, rec.login) ==> r == a + [rec]
    ensures |r| == if HasLogin(a, rec.login) then |a| else |a| + 1
    ensures rec in r
    ensures forall x :: x in r ==> x == rec || x in a
  {
    match Locate(a, rec.login)
    case None => a + [rec]
    case Some(k) =>
      var r := a[k := rec];
      assert r[k] == rec;
      r
  }

  /** On a table with unique logins, an upsert of an existing login overwrites
      exactly that record and leaves every other record where it was. */
  lemma UpsertOverwrites(a: seq<Record>, rec: Record)
    requires UniqueLogins(a) && HasLogin(a, rec.login)
    ensures |Upsert(a, rec)| == |a|
    ensures forall i :: 0 <= i < |a| ==> Upsert(a, rec)[i] == if a[i].login == rec.login then rec else a[i]
  {
  }

  /** An upsert keeps the table's invariant and leaves exactly one record with
      the saved login, namely the saved record. */
  lemma UpsertKeepsConsistent(a: seq<Record>, rec: Record)
    requires Consistent(true, a) && NoDuplicates(rec.groups)
    ensures Consistent(true, Upsert(a, rec))
    ensures HasLogin(Upsert(a, rec), rec.login)
    ensures forall i :: 0 <= i < |Upsert(a, rec)| && Upsert(a, rec)[i].login == rec.login ==> Upsert(a, rec)[i] == rec
  {
    var r := Upsert(a, rec);
    if HasLogin(a, rec.login) {
      UpsertOverwrites(a, rec);
      forall i, j | 0 <= i < j < |r|
        ensures r[i].login != r[j].login
      {
        assert r[i].login == a[i].login;
        assert r[j].login == a[j].login;
      }
    } else {
      forall i, j | 0 <= i < j < |r|
        ensures r[i].login != r[j].login
      {
        if j == |a| {
          assert a[i].login != rec.login;
        }
      }
    }
  }

  /** Saving the same record twice is the same as saving it once. */
  lemma {:induction false} UpsertIdempotent(a: seq<Record>, rec: Record)
    ensures Upsert(Upsert(a, rec), rec) == Upsert(a, rec)
  {
    var r := Upsert(a, rec);
    match Locate(a, rec.login)
    case None =>
      assert r[|a|] == rec;
      assert Locate(r, rec.login) == Some(|a|);
    case Some(k) =>
      assert r[k] == rec;
      assert Locate(r, rec.login) == Some(k);
  }

  /** A record appended under a new login is the one found for that login. */
  lemma AppendedIsFound(a: seq<Record>, rec: Record)
    requires !HasLogin(a, rec.login)
    ensures Locate(a + [rec], rec.login) == Some(|a|)
  {
    var r := a + [rec];
    assert forall j :: 0 <= j < |a| ==> r[j] == a[j];
    LocateFirst(r, rec.login, |a|);
  }

  /** The table without the records that have this login, the rest in order. */
  function Without(a: seq<Record>, login: string): (r: seq<Record>)
    ensures !HasLogin(r, login)
    ensures forall x :: x in r <==> x in a && x.login != login
    ensures |r| <= |a|
  {
    if a == [] then []
    else
      var rest := Without(a[..|a| - 1], login);
      assert a == a[..|a| - 1] + [a[|a| - 1]];
      if a[|a| - 1].login == login then rest else rest + [a[|a| - 1]]
  }

  /** Deleting a login that is not there changes nothing. */
  lemma {:induction false} WithoutAbsent(a: seq<Record>, login: string)
    requires !HasLogin(a, login)
    ensures Without(a, login) == a
  {
    if a != [] {
      var p := a[..|a| - 1];
      assert forall i :: 0 <= i < |p| ==> p[i] == a[i];
      WithoutAbsent(p, login);
      assert a == p + [a[|a| - 1]];
    }
  }

  /** A second delete of the same login is a no-op. */
  lemma WithoutIdempotent(a: seq<Record>, login: string)
    ensures Without(Without(a, login), login) == Without(a, login)
  {
    WithoutAbsent(Without(a, login), login);
  }

  /** Deleting the login of the last record, when no other record has it,
      drops just that last record. */
  lemma DropsLast(a: seq<Record>, login: string)
    requires UniqueLogins(a) && a != [] && a[|a| - 1].login == login
    ensures Without(a, login) == a[..|a| - 1]
  {
    var n := |a| - 1;
    var p := a[..n];
    assert Without(a, login) == Without(p, login);
    assert !HasLogin(p, login) by {
      forall i | 0 <= i < n
        ensures p[i].login != login
      {
        assert a[i].login != a[n].login;
      }
    }
    WithoutAbsent(p, login);
  }

  /** On a table with unique logins, deleting a present login removes exactly
      its one record and keeps every other record in order. */
  lemma {:induction false} WithoutRemovesOne(a: seq<Record>, login: string, k: nat)
    requires UniqueLogins(a) && Locate(a, login) == Some(k)
    ensures Without(a, login) == a[..k] + a[k + 1..]
    decreases |a|, 1
  {
    if k == |a| - 1 {
      DropsLast(a, login);
      assert a[k + 1..] == [];
    } else {
      DropsEarlier(a, login, k);
    }
  }

  /** The case of `WithoutRemovesOne` where the record is not the last one. */
  lemma {:induction false} DropsEarlier(a: seq<Record>, login: string, k: nat)
    requires UniqueLogins(a) && Locate(a, login) == Some(k) && k < |a| - 1
    ensures Without(a, login) == a[..k] + a[k + 1..]
    decreases |a|, 0
  {
    var n := |a| - 1;
    var p := a[..n];
    assert a == p + [a[n]];
    assert a[n].login != a[k].login;
    assert Without(a, login) == Without(p, login) + [a[n]];
    assert UniqueLogins(p);
    LocateFirst(p, login, k);
    WithoutRemovesOne(p, login, k);
    SpliceThenAppend(p, k, a[n]);
  }

  /** Taking out position `k` commutes with appending a record at the end. */
  lemma SpliceThenAppend(p: seq<Record>, k: nat, last: Record)
    requires k < |p|
    ensures (p[..k] + p[k + 1..]) + [last] == (p + [last])[..k] + (p + [last])[k + 1..]
  {
    var a := p + [last];
    assert a[..k] == p[..k];
    assert a[k + 1..] == p[k + 1..] + [last];
  }

  /** Deleting keeps logins unique. */
  lemma {:induction false} WithoutKeepsUnique(a: seq<Record>, login: string)
    requires UniqueLogins(a)
    ensures UniqueLogins(Without(a, login))
  {
    if a != [] {
      var n := |a| - 1;
      var p := a[..n];
      assert UniqueLogins(p);
      WithoutKeepsUnique(p, login);
      var rest := Without(p, login);
      if a[n].login != login {
        var r := rest + [a[n]];
        forall i, j | 0 <= i < j < |r|
          ensures r[i].login != r[j].login
        {
          if j == |rest| {
            assert r[i] in p;
            var m :| 0 <= m < |p| && p[m] == r[i];
            assert a[m].login != a[n].login;
          }
        }
      }
    }
  }

  /** Deleting keeps every group list duplicate-free. */
  lemma WithoutKeepsGroupLists(a: seq<Record>, login: string)
    requires GroupListsValid(a)
    ensures GroupListsValid(Without(a, login))
  {
    var r := Without(a, login);
    forall i | 0 <= i < |r|
      ensures NoDuplicates(r[i].groups)
    {
      assert r[i] in a;
    }
  }

  /** Deleting keeps the table's invariant. */
  lemma WithoutKeepsConsistent(a: seq<Record>, login: string)
    requires Consistent(true, a)
    ensures Consistent(true, Without(a, login))
  {
    WithoutKeepsUnique(a, login);
    WithoutKeepsGroupLists(a, login);
  }
}

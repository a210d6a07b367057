# PhotoShow account store, modelled in Dafny

PhotoShow keeps its user accounts in one XML file. Each `<account>` entry holds a login, a
password digest, a name, an email and a list of groups. The class `Account`
(`src/classes/Account.class.php`) does five things:

- it looks an account up by login (its constructor);
- it creates accounts: "user" for everyone, "root" for the first one;
- it edits an in-memory account's groups;
- it upserts the account back into the file, and it deletes and lists accounts;
- it computes an account's rights as the union of the rights its groups grant.

The model replaces the file with an in-memory table:

- `Membership` (`membership.dfy`): group lists. No-duplicates, `add_group`/`remove_group` as
  functions, and the groups `create` gives a new account.
- `Table` (`table.dfy`): the `Record` of one account and the table invariant. Unique logins,
  duplicate-free group lists, and no records when the file is absent. Also the first-match lookup
  `Locate`, the upsert `Upsert` behind `save`, and `Without` behind `delete`, with their lemmas.
- `Rights` (`rights.dfy`): `array_unique`/`array_merge` as `Dedup`/`Merge`, the fold over an
  account's groups, and what `rights(login)` yields over the whole table.
- `Store` (`store.dfy`): the classes.
  - `Groups` is the Group collaborator: a ghost set of groups that have a record, plus
    `rightsOf`, the rights each group grants.
  - `Account` is an in-memory account, whose `AddGroup`/`RemoveGroup` edit `groups` in place.
  - `AccountStore` holds the accounts file: `accounts: seq<Record>`, `storeExists`, and the
    digest function. Its methods scan, upsert and filter the table with loops, as the PHP code
    does, and are proved against the `Table` and `Rights` functions.
- `AsWritten` (`findings.dfy`): three operations as the code is written (see Findings).

`AccountStore.Password` is `Account::password`: it applies the store's `digest` (SHA-1 in the
source, uninterpreted here) to the plain-text password. `Create` stores exactly that value.

When the accounts file is absent, `simplexml_load_file` yields no document, so there is nothing
to scan:

- `Exists` answers false: `new Settings()` fails first (lines 255-260).
- `Create` starts a new file and makes the account root. The comments at lines 116 and 125 describe
  this intent, but the code cannot do it (see Findings).
- `Find` fails with `NotFound`, the same exception as for a missing login (line 97).
- `FindAll` and `Rights` return an empty list (lines 280 and 308).
- `Save` and `Delete` fail with `StoreUnavailable` and change nothing. In the code, they call
  `addChild` or `asXML` on the missing document (lines 203, 223 and 243).

## Model

| member | source | states |
|---|---|---|
| Membership.IndexOf | src/classes/Account.class.php:176 | `array_search`: the position returned holds the group, and no earlier position does |
| Membership.WithGroup | src/classes/Account.class.php:157-164 | joining an existing group changes nothing; a new group is appended at the end; members become old members plus `g`; no duplicates stays no duplicates |
| Membership.WithoutGroup | src/classes/Account.class.php:173-179 | leaving a group not joined changes nothing; the list shrinks by one when the group was there; every other group is kept; on a duplicate-free list the group is gone afterwards |
| Membership.AddThenRemove | src/classes/Account.class.php:157-179 | adding a group the account lacked and then removing it gives back the original list, order included |
| Membership.RemoveThenAdd | src/classes/Account.class.php:157-179 | removing and re-adding a group keeps the list duplicate-free with the same members |
| Membership.InitialGroups | src/classes/Account.class.php:112-127 | a new account's groups: the requested groups as a prefix, then "user", plus "root" exactly when this is the first account or "root" was requested; no duplicates added |
| Table.Locate | src/classes/Account.class.php:84-97 | the scan finds an index exactly when some record has the login; that record has the login and no earlier one does |
| Table.LocateFirst | src/classes/Account.class.php:84-97 | any index that is the first with the login is the one the scan returns |
| Table.Upsert | src/classes/Account.class.php:191-208 | a new login is appended as one record; an existing login keeps the table length; the saved record is in the table and nothing else new is |
| Table.UpsertOverwrites | src/classes/Account.class.php:191-201 | with unique logins, saving an existing login replaces exactly its record; every other record stays at its position |
| Table.UpsertKeepsConsistent | src/classes/Account.class.php:187-224 | saving keeps logins unique and group lists duplicate-free; afterwards the login is present, and every record with it is the saved record |
| Table.UpsertIdempotent | src/classes/Account.class.php:187-224 | saving the same account twice is the same as saving it once |
| Table.AppendedIsFound | src/classes/Account.class.php:129-136 | after a new login is appended, a lookup of that login finds the new record |
| Table.Without | src/classes/Account.class.php:233-244 | after delete no record has the login; exactly the records with another login are kept |
| Table.WithoutAbsent | src/classes/Account.class.php:233-244 | deleting an absent login leaves the table unchanged |
| Table.WithoutIdempotent | src/classes/Account.class.php:233-244 | a second delete of the same login changes nothing |
| Table.DropsLast | src/classes/Account.class.php:233-244 | with unique logins, deleting the last record's login leaves exactly the records before it |
| Table.DropsEarlier | src/classes/Account.class.php:233-244 | with unique logins, deleting the login of an earlier record removes that record and keeps the rest in order |
| Table.WithoutRemovesOne | src/classes/Account.class.php:233-244 | with unique logins, delete removes exactly the one matching record and keeps all others in order |
| Table.WithoutKeepsUnique | src/classes/Account.class.php:233-244 | delete keeps logins unique |
| Table.WithoutKeepsGroupLists | src/classes/Account.class.php:233-244 | delete keeps every remaining group list duplicate-free |
| Table.WithoutKeepsConsistent | src/classes/Account.class.php:233-244 | delete keeps logins unique and group lists duplicate-free |
| Rights.Dedup | src/classes/Account.class.php:316 | `array_unique`: the result has no duplicates and the same values as its input |
| Rights.DedupOfUnique | src/classes/Account.class.php:316 | `array_unique` leaves a duplicate-free list as it is |
| Rights.Merge | src/classes/Account.class.php:316 | `array_unique(array_merge(a, b))`: duplicate-free, and holds exactly the values of `a` and of `b` |
| Rights.Accumulate | src/classes/Account.class.php:315-317 | folding the groups in: a right is in the result iff it was already accumulated or some group of the list grants it; duplicate-freedom is kept |
| Rights.StoreRights | src/classes/Account.class.php:307-322 | the rights of a login are duplicate-free; a right is in them iff a group of a record with that login grants it |
| Rights.AccountRights | src/classes/Account.class.php:313-318 | with unique logins, a right belongs to an account iff one of that account's own groups grants it |
| Rights.NoAccountNoRights | src/classes/Account.class.php:307-322 | a login without a record has no rights |
| Rights.GroupOrderIrrelevant | src/classes/Account.class.php:315-317 | two group lists with the same members grant the same rights, whatever their order |
| Rights.AliceAndBob | src/classes/Account.class.php:307-322 | with root granting manage_users and manage_photos and user granting view_photos, alice (user, root) gets all three and bob (user) gets view_photos |
| Store.Groups.Ensure | src/classes/Account.class.php:161-162 | `$g = new Group($group)` then `$g->save()`, taken as create-if-absent: afterwards the group is known, and nothing else changes |
| Store.Groups.EnsureAll | src/classes/Account.class.php:211-220 | after the loop over the saved account's groups, every one of them is known, and nothing else is added |
| Store.Account.constructor | src/classes/Account.class.php:88-93 | the in-memory account holds exactly the fields of the record it was read from, and is valid when that record's groups are duplicate-free |
| Store.Account.AddGroup | src/classes/Account.class.php:157-164 | `groups` becomes `WithGroup(old groups, g)` and stays duplicate-free; a new group is recorded as known; an existing one leaves the registry unchanged |
| Store.Account.RemoveGroup | src/classes/Account.class.php:173-179 | `groups` becomes `WithoutGroup(old groups, g)`, stays duplicate-free, and no longer contains `g` |
| Store.AccountStore.Password | src/classes/Account.class.php:146-148 | the stored form of a password is the digest of the plain text; `Store.AccountStore.Create` stores exactly `Password(plain)` |
| Store.AccountStore.Exists | src/classes/Account.class.php:253-270 | true iff the file exists and some record has the login; false when the file is absent |
| Store.AccountStore.Find | src/classes/Account.class.php:77-97 | succeeds iff the file exists and some record has the login, returning the first such record; every failure is NotFound |
| Store.AccountStore.FindAll | src/classes/Account.class.php:279-298 | one entry per record, in file order, each the record itself, login and own groups included; no entries when the file is absent |
| Store.AccountStore.Rights | src/classes/Account.class.php:307-322 | the nested loop with `array_unique(array_merge(...))` computes `StoreRights` of the table; no rights when the file is absent |
| Store.AccountStore.Save | src/classes/Account.class.php:187-224 | the table becomes `Upsert(old table, account)` and keeps its invariant; every group of the account becomes known; with no file, nothing changes and StoreUnavailable is returned |
| Store.AccountStore.Delete | src/classes/Account.class.php:226-244 | the table becomes `Without(old table, login)` and keeps its invariant; with no file, nothing changes and StoreUnavailable is returned |
| Store.AccountStore.Create | src/classes/Account.class.php:107-137 | an existing login fails with AlreadyExists and changes nothing. Otherwise the file exists afterwards and exactly one record is appended: the login, `Password(plain)`, the name, the email and `InitialGroups(groups, file was absent)`. All of those groups become known |
| AsWritten.DeleteAsWrittenKeepsLogin | src/classes/Account.class.php:237-241 | as written, delete leaves a present login present; the intended delete removes it |
| AsWritten.CreateGroupsAsWrittenDuplicates | src/classes/Account.class.php:113 | as written, asking for "user" yields "user" twice; the intended groups hold it once |
| AsWritten.FirstCreateAsWrittenNoRoot | src/classes/Account.class.php:113-127 | as written, the groups of a new account never gain "root" unless requested; the intended groups of the first account always hold it |
| AsWritten.SaveAsWrittenLosesGroups | src/classes/Account.class.php:209-212 | as written, a saved account reads back with no groups, and saving it again doubles the stray `<group>` elements; the intended upsert stores the groups with the record, and a second save changes nothing |

## Left out

- XML parsing and writing (`simplexml_load_file`, `addChild`, `asXML`) are not modelled. The file is the `accounts` sequence plus the `storeExists` flag.
- `Settings` and its `FileException` are not part of this model. A missing file is the `storeExists` flag.
- The SHA-1 digest is not modelled: `digest` is an arbitrary function supplied when the store is built. So the model cannot show that the stored value differs from the plain-text password.
- The Group and Groups classes are not part of this model. Group records are a ghost set of known names, and a group's rights are the function `rightsOf`.
- Concurrent requests are not modelled: the model is sequential, so it does not show the lost update between two read-modify-write cycles on the file.
- Store.AccountStore.Create: requires the requested groups to be duplicate-free (the rule on the `groups` field at line 68). "user" and "root" are appended only when not already present, where the code appends "user" unconditionally (see Findings).
- Store.AccountStore.Create: bootstraps an absent file and grants "root" to its first account, as the comments at lines 116 and 125 intend. The `catch(FileException $e)` at lines 118-127 cannot run, because line 117 only reads a static property. So as written no file is created, no account receives "root", and the first `save` fails on the missing document (see Findings).
- Store.Account.AddGroup: never fails. The code calls `new Group($group)` and `$g->save()` without a `try` (lines 161-162). By the comment at line 218, those throw when the group already exists, so the code's `add_group` can raise after the append at line 160. The model treats the group record as create-if-absent (`Store.Groups.Ensure`), as `save` does with its `try` at lines 214-219.
- Store.AccountStore.Create: the default arguments of `create` (`$groups=array()`, `$name=''`, `$email=''`, line 107) are not modelled; callers pass `[]`, `""` and `""` explicitly. The empty account that `new Account()` gives (lines 78-79, used at line 129) is not modelled either: `Create` builds the `Account` from a `Record` directly.
- Store.Account.RemoveGroup: nothing stops removing "user", as in the source. So "user" is guaranteed at creation only, and is not an invariant of the store.
- Store.Account.RemoveGroup: PHP's `unset` leaves a gap in the array keys; the model closes the gap, keeping the order.
- Store.AccountStore.Find: returns the record; the in-memory `Account` is then built from it with `Store.Account.constructor`, where the PHP constructor does both steps.
- The password field has one name throughout (`password`). The code reads `pass` (line 89) but writes `password` (lines 198, 205).
- `save` makes sure that each saved group exists (`Group($group)`), where the code passes the undefined `$g` (line 215).
- `delete` loads the file whose name the code drops (lines 234-235) and removes the matching records, where the code's `unset($acc)` removes nothing (see Findings).
- `findAll` reads each record's own login and groups, where the code reads `$accounts->groups` and omits the login (lines 288-292).
- Logins and group names are compared as exact strings (`Table.HasLogin`, `Table.Locate`, `Table.Upsert`, `Table.Without`, `Membership.NoDuplicates`, `Membership.WithGroup`, `Membership.WithoutGroup`, `Membership.IndexOf`). The code uses PHP's loose `==` (lines 87, 192, 238, 265, 314) and non-strict `in_array`/`array_search` (lines 159, 175-176). Those compare two numeric strings as numbers, so `"10"` and `"1e1"` are one login or one group there and two here. `array_unique` (line 316) compares as strings, as `Rights.Dedup` does.
- `save` stores the groups in the record, as the constructor and `rights` read them back. The code adds the `<group>` elements beside `<groups>` instead of inside it (see Findings).
- `exists` treats a missing file as "no accounts", as the code's `new Settings()` catch does; the constructor's side effects are not modelled.

## Findings

| source | as written | input that shows it | evidently intended | confidence | as-written member | corrected member |
|---|---|---|---|---|---|---|
| src/classes/Account.class.php:237-241 | `unset($acc)` clears only the loop variable, so the file is written back unchanged | any table holding the login being deleted | the matching record is removed | high, not executed | AsWritten.DeleteAsWrittenKeepsLogin | Table.WithoutRemovesOne |
| src/classes/Account.class.php:113 | "user" is appended even when the caller already asked for it | `create("bob", p, array("user"))` | a group list without duplicates, as the comment at line 68 requires | medium, not executed | AsWritten.CreateGroupsAsWrittenDuplicates | Membership.InitialGroups |
| src/classes/Account.class.php:209-212 | the element `addChild('groups')` returns is dropped, so each `<group>` is added directly under `<account>`; line 201 removes only `<groups>` on a later save | any account saved with at least one group, e.g. `create("bob", p)` then `new Account("bob")` | the groups are written inside `<groups>`, where lines 92 and 315 read them | high, not executed | AsWritten.SaveAsWrittenLosesGroups | Table.UpsertKeepsConsistent |
| src/classes/Account.class.php:115-127 | the `catch(FileException $e)` guards only a read of the static property `Settings::$accounts_file`, which cannot throw, so the file is never created and "root" is never appended | `create("alice", p)` with no accounts file | the file is created and the first account is in "root", as the comments at lines 116 and 125 say | high, not executed | AsWritten.FirstCreateAsWrittenNoRoot | Membership.InitialGroups |

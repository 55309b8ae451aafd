/** The user-record store: a flat list of account records, looked up by id or
    by e-mail and written back through one insert-or-replace operation. */
module UserStore {
  import opened Wrappers
  import opened Text

  /** A calendar day in `YYYY-MM-DD` form, as produced by the device clock. */
  type Date = string

  /** One account record. `hasPayId == false` stands for the flag being absent. */
  datatype User = User(
    id: string,
    name: string,
    email: string,
    password: string,
    balance: int,
    createdAt: string,
    lastCheckIn: Option<Date>,
    checkedDates: seq<Date>,
    referralCode: string,
    hasPayId: bool)

  /** `Array.prototype.findIndex`: the position of the first element satisfying `p`. */
  function FindIndex<T>(s: seq<T>, p: T -> bool): (r: Option<nat>)
    ensures r.None? <==> forall i :: 0 <= i < |s| ==> !p(s[i])
    ensures r.Some? ==> r.value < |s| && p(s[r.value])
    ensures r.Some? ==> forall i :: 0 <= i < r.value ==> !p(s[i])
  {
    if |s| == 0 then None
    else if p(s[0]) then Some(0)
    else
      match FindIndex(s[1..], p)
      case None => None
      case Some(k) => Some(k + 1)
  }

  /** The record matches an e-mail query: a record without an e-mail never
      matches, otherwise the lower-cased addresses must be equal. */
  predicate EmailMatches(u: User, email: string)
  {
    u.email != "" && Lower(u.email) == Lower(email)
  }

  /** Position of the first record whose id is exactly `id`. */
  function IndexOfId(users: seq<User>, id: string): (r: Option<nat>)
    ensures r.None? <==> forall i :: 0 <= i < |users| ==> users[i].id != id
    ensures r.Some? ==> r.value < |users| && users[r.value].id == id
    ensures r.Some? ==> forall i :: 0 <= i < r.value ==> users[i].id != id
  {
    FindIndex(users, (u: User) => u.id == id)
  }

  /** Position of the first record whose e-mail matches `email`. */
  function IndexOfEmail(users: seq<User>, email: string): (r: Option<nat>)
    ensures r.None? <==> forall i :: 0 <= i < |users| ==> !EmailMatches(users[i], email)
    ensures r.Some? ==> r.value < |users| && EmailMatches(users[r.value], email)
    ensures r.Some? ==> forall i :: 0 <= i < r.value ==> !EmailMatches(users[i], email)
  {
    FindIndex(users, (u: User) => EmailMatches(u, email))
  }

  /** `findUserByEmail`: nothing for an empty query, otherwise the first record
      whose e-mail equals the query up to letter case. */
  function FindByEmail(users: seq<User>, email: string): (r: Option<User>)
    ensures email == "" ==> r.None?
    ensures r.None? && email != "" ==> forall i :: 0 <= i < |users| ==> !EmailMatches(users[i], email)
    ensures r.Some? ==> exists k :: 0 <= k < |users| && users[k] == r.value && EmailMatches(users[k], email)
                                 && forall j :: 0 <= j < k ==> !EmailMatches(users[j], email)
  {
    if email == "" then None
    else
      match IndexOfEmail(users, email)
      case None => None
      case Some(k) => Some(users[k])
  }

  /** `findUserById`: nothing for an empty id, otherwise the first record with exactly that id. */
  function FindById(users: seq<User>, id: string): (r: Option<User>)
    ensures id == "" ==> r.None?
    ensures r.None? && id != "" ==> forall i :: 0 <= i < |users| ==> users[i].id != id
    ensures r.Some? ==> exists k :: 0 <= k < |users| && users[k] == r.value && r.value.id == id
                                 && forall j :: 0 <= j < k ==> users[j].id != id
  {
    if id == "" then None
    else
      match IndexOfId(users, id)
      case None => None
      case Some(k) => Some(users[k])
  }

  /** `persistUser`, the store's only write: a record whose id is new is appended
      at the end; otherwise it takes the place of the first record with its id.
      Every other position keeps its record. */
  function Persist(users: seq<User>, u: User): (r: seq<User>)
    ensures IndexOfId(users, u.id).None? ==>
              && |r| == |users| + 1
              && r[|users|] == u
              && forall i :: 0 <= i < |users| ==> r[i] == users[i]
    ensures IndexOfId(users, u.id).Some? ==>
              && |r| == |users|
              && r[IndexOfId(users, u.id).value] == u
              && forall i :: 0 <= i < |users| && i != IndexOfId(users, u.id).value ==> r[i] == users[i]
  {
    match IndexOfId(users, u.id)
    case None => users + [u]
    case Some(k) => users[k := u]
  }

  /** After a write, looking up the written id finds exactly the written record. */
  lemma PersistThenFindById(users: seq<User>, u: User)
    requires u.id != ""
    ensures FindById(Persist(users, u), u.id) == Some(u)
    ensures IndexOfId(Persist(users, u), u.id).Some?
    ensures IndexOfId(Persist(users, u), u.id) == (if IndexOfId(users, u.id).Some? then IndexOfId(users, u.id) else Some(|users|))
  {
  }

  /** A write does not change what a lookup of any other id finds. */
  lemma PersistKeepsOtherIds(users: seq<User>, u: User, id: string)
    requires id != u.id
    ensures FindById(Persist(users, u), id) == FindById(users, id)
    ensures IndexOfId(Persist(users, u), id) == IndexOfId(users, id)
  {
  }

  /** No two records share an id. */
  predicate IdsUnique(users: seq<User>)
  {
    forall i, j :: 0 <= i < j < |users| ==> users[i].id != users[j].id
  }

  /** No two records share an e-mail address up to letter case (records without
      an e-mail are exempt: they never match a lookup). */
  predicate EmailsUnique(users: seq<User>)
  {
    forall i, j :: 0 <= i < j < |users| ==> !EmailMatches(users[j], users[i].email)
  }

  /** A write keeps the ids distinct. */
  lemma PersistKeepsIdsUnique(users: seq<User>, u: User)
    requires IdsUnique(users)
    ensures IdsUnique(Persist(users, u))
  {
  }

  /** Writing back a record whose e-mail is unchanged, over its own earlier
      version, keeps e-mails unique: every handler that updates one field of an
      existing account goes through this. */
  lemma PersistSameEmailKeepsEmailsUnique(users: seq<User>, k: nat, u: User)
    requires k < |users| && IndexOfId(users, u.id) == Some(k)
    requires u.email == users[k].email
    requires EmailsUnique(users)
    ensures EmailsUnique(Persist(users, u))
  {
  }
}

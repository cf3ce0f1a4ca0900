/**
 * The user record and the user table. The record has no username: the email
 * is the login key and is unique across the table, and `user_id` is the
 * primary key, assigned at creation and never edited.
 */
module Accounts {
  import opened Results

  /** The canonical text of a user's UUID, as `str(user.user_id)` renders it. */
  datatype UserId = UserId(text: string)

  /** A stored password: only ever produced by a hasher from a plaintext. */
  datatype Credential = Credential(encoded: string)

  /**
   * The password hasher, left abstract: `make` is `set_password`'s encoder and
   * `check` is `check_password`.
   */
  datatype Hasher = Hasher(make: string -> Credential, check: (Credential, string) -> bool)

  /** A hasher whose check accepts the password a credential was made from. */
  ghost predicate Sound(h: Hasher) {
    forall pw :: h.check(h.make(pw), pw)
  }

  /** A hasher whose check accepts exactly the password a credential was made from. */
  ghost predicate Exact(h: Hasher) {
    forall pw, given :: h.check(h.make(pw), given) <==> pw == given
  }

  /**
   * A row of the user table. `createdAt` is the creation instant and
   * `updatedAt` the day of the last save.
   */
  datatype User = User(
    userId: UserId,
    firstName: string,
    lastName: string,
    email: string,
    credential: Credential,
    createdAt: nat,
    updatedAt: nat)

  /** The user table, keyed by primary key. */
  type Store = map<UserId, User>

  /** Each row is stored under its own key and no two rows share an email. */
  predicate Valid(s: Store) {
    && (forall id | id in s :: s[id].userId == id)
    && (forall a, b | a in s && b in s && s[a].email == s[b].email :: a == b)
  }

  /** The keys of the rows whose email is `email`. */
  function UsersWithEmail(s: Store, email: string): set<UserId> {
    set id | id in s && s[id].email == email
  }

  predicate EmailTaken(s: Store, email: string) {
    exists id | id in s :: s[id].email == email
  }

  /** `email` belongs to some row other than `self`. */
  predicate EmailTakenByOther(s: Store, email: string, self: UserId) {
    exists id | id in s :: id != self && s[id].email == email
  }

  /** In a valid table an email selects at most one row, so a lookup by email never sees two. */
  lemma {:induction false} EmailSelectsAtMostOne(s: Store, email: string)
    requires Valid(s)
    ensures |UsersWithEmail(s, email)| <= 1
    ensures |UsersWithEmail(s, email)| == 1 <==> EmailTaken(s, email)
  {
    var ids := UsersWithEmail(s, email);
    if id :| id in ids {
      assert ids == {id};
    } else {
      assert ids == {};
      forall id | id in s
        ensures s[id].email != email
      {
        assert id !in ids;
      }
    }
  }

  /** The constraint violations the table reports. */
  datatype IntegrityError = DuplicateKey | DuplicateEmail

  /** `INSERT`: refused when the key or the email is already present. */
  function Insert(s: Store, u: User): (r: Result<Store, IntegrityError>)
    ensures r.Ok? <==> u.userId !in s && !EmailTaken(s, u.email)
    ensures r.Ok? ==> r.value.Keys == s.Keys + {u.userId} && r.value[u.userId] == u
    ensures r.Ok? ==> forall id | id in s :: r.value[id] == s[id]
    ensures r.Ok? && Valid(s) ==> Valid(r.value)
  {
    if u.userId in s then Err(DuplicateKey)
    else if EmailTaken(s, u.email) then Err(DuplicateEmail)
    else Ok(s[u.userId := u])
  }

  /** Saving a row under its key: refused when another row already has its email. */
  function Save(s: Store, u: User): (r: Result<Store, IntegrityError>)
    ensures r.Ok? <==> !EmailTakenByOther(s, u.email, u.userId)
    ensures r.Ok? ==> r.value.Keys == s.Keys + {u.userId} && r.value[u.userId] == u
    ensures r.Ok? ==> forall id | id in s && id != u.userId :: r.value[id] == s[id]
    ensures r.Ok? && Valid(s) ==> Valid(r.value)
  {
    if EmailTakenByOther(s, u.email, u.userId) then Err(DuplicateEmail)
    else Ok(s[u.userId := u])
  }

  /** Deleting a row by key; deleting an absent row changes nothing. */
  function Remove(s: Store, id: UserId): (r: Store)
    ensures r.Keys == s.Keys - {id}
    ensures forall k | k in r :: r[k] == s[k]
    ensures Valid(s) ==> Valid(r)
  {
    s - {id}
  }
}

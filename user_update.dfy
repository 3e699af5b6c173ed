/** updateUser (users-update.ts): the whitelisted profile fields, the checks on a new
    email, and the row an accepted update writes. Password hashing and the email regex
    are parameters. */
module UserUpdate {
  import opened Domain

  /** One `key: value` entry of the request body, in the body's key order. */
  datatype Change = Change(key: string, value: string)

  /** The keys copied unchanged into the row. */
  predicate PlainField(key: string)
  {
    key == "first_name" || key == "last_name" || key == "avatar_url" || key == "bio"
  }

  /** The error a change raises before its first `await`: an unknown key, or an email
      the regex rejects. */
  function ChangeError(c: Change, emailValid: string -> bool): (r: Option<Error>)
    ensures r.None? <==> c.key == "password" || PlainField(c.key) || (c.key == "email" && emailValid(c.value))
    ensures r == Some(ApiError("user_update/invalid_email")) <==> c.key == "email" && !emailValid(c.value)
    ensures r == Some(ApiError("user_update/invalid_change")) <==>
      !(c.key == "password" || c.key == "email" || PlainField(c.key))
  {
    if c.key == "password" then None
    else if c.key == "email" then (if emailValid(c.value) then None else Some(ApiError("user_update/invalid_email")))
    else if PlainField(c.key) then None
    else Some(ApiError("user_update/invalid_change"))
  }

  /** All callbacks start in key order, so the first change that fails before awaiting
      decides the rejection. */
  function FirstError(changes: seq<Change>, emailValid: string -> bool): (r: Option<Error>)
    ensures r.None? <==> forall i :: 0 <= i < |changes| ==> ChangeError(changes[i], emailValid).None?
    ensures r.Some? ==> r.value in {ApiError("user_update/invalid_email"), ApiError("user_update/invalid_change")}
  {
    if changes == [] then None
    else if ChangeError(changes[0], emailValid).Some? then ChangeError(changes[0], emailValid)
    else FirstError(changes[1..], emailValid)
  }

  /** The error reported is that of a change all of whose predecessors are accepted. */
  lemma {:induction false} FirstErrorIsFirst(changes: seq<Change>, emailValid: string -> bool)
    ensures var r := FirstError(changes, emailValid);
      r.Some? ==> exists i :: 0 <= i < |changes| && r == ChangeError(changes[i], emailValid)
                    && forall k :: 0 <= k < i ==> ChangeError(changes[k], emailValid).None?
    decreases |changes|
  {
    var r := FirstError(changes, emailValid);
    if changes != [] && ChangeError(changes[0], emailValid).None? && r.Some? {
      var tl := changes[1..];
      FirstErrorIsFirst(tl, emailValid);
      var i :| 0 <= i < |tl| && r == ChangeError(tl[i], emailValid)
               && forall k :: 0 <= k < i ==> ChangeError(tl[k], emailValid).None?;
      assert changes[i + 1] == tl[i];
      assert forall k :: 0 < k < i + 1 ==> changes[k] == tl[k - 1];
    }
  }

  /** existingEmailCheck: some user, the one being updated included, has this email. */
  predicate EmailInUse(users: map<UserId, User>, email: string)
  {
    exists id :: id in users && users[id].email == email
  }

  predicate EmailTaken(users: map<UserId, User>, changes: seq<Change>)
  {
    exists i :: 0 <= i < |changes| && changes[i].key == "email" && EmailInUse(users, changes[i].value)
  }

  /** One entry written into the row: its column set, `password` through the hash. */
  function ApplyOne(u: User, c: Change, hash: string -> string): User
  {
    if c.key == "password" then u.(passwordHash := hash(c.value))
    else if c.key == "email" then u.(email := c.value)
    else if c.key == "first_name" then u.(firstName := c.value)
    else if c.key == "last_name" then u.(lastName := c.value)
    else if c.key == "avatar_url" then u.(avatarUrl := Some(c.value))
    else if c.key == "bio" then u.(bio := c.value)
    else u
  }

  /** The row after the whole `changes` object is written. */
  function Apply(u: User, changes: seq<Change>, hash: string -> string): User
    decreases |changes|
  {
    if changes == [] then u else Apply(ApplyOne(u, changes[0], hash), changes[1..], hash)
  }

  /** updateUser's outcome: the user's new row, or the error. An empty change set makes
      the ORM's update throw. */
  function UpdateOutcome(users: map<UserId, User>, id: UserId, changes: seq<Change>,
                         hash: string -> string, emailValid: string -> bool): (r: Result<User>)
    ensures r.Ok? <==> (FirstError(changes, emailValid).None? && !EmailTaken(users, changes)
                        && changes != [] && id in users)
    ensures r.Ok? ==> r.value == Apply(users[id], changes, hash)
    ensures FirstError(changes, emailValid).Some? ==> r == Err(FirstError(changes, emailValid).value)
    ensures FirstError(changes, emailValid).None? && EmailTaken(users, changes)
            ==> r == Err(ApiError("user_update/email_exists"))
    ensures r == Err(ApiError("user_update/no_user")) <==>
      FirstError(changes, emailValid).None? && !EmailTaken(users, changes) && changes != [] && id !in users
  {
    match FirstError(changes, emailValid)
    case Some(e) => Err(e)
    case None =>
      if EmailTaken(users, changes) then Err(ApiError("user_update/email_exists"))
      else if changes == [] then Err(UnknownError)
      else if id !in users then Err(ApiError("user_update/no_user"))
      else Ok(Apply(users[id], changes, hash))
  }

  predicate KeyAbsent(changes: seq<Change>, key: string)
  {
    forall i :: 0 <= i < |changes| ==> changes[i].key != key
  }

  predicate KeysDistinct(changes: seq<Change>)
  {
    forall i, j :: 0 <= i < j < |changes| ==> changes[i].key != changes[j].key
  }

  lemma TailKeys(changes: seq<Change>)
    requires KeysDistinct(changes) && changes != []
    ensures KeysDistinct(changes[1..]) && KeyAbsent(changes[1..], changes[0].key)
  {
    var tl := changes[1..];
    forall i, j | 0 <= i < j < |tl| ensures tl[i].key != tl[j].key {
      assert tl[i] == changes[i + 1] && tl[j] == changes[j + 1];
    }
    forall i | 0 <= i < |tl| ensures tl[i].key != changes[0].key {
      assert tl[i] == changes[i + 1];
    }
  }

  /** The keys that name a column of the User row. */
  predicate IsColumn(key: string)
  {
    key == "password" || key == "email" || PlainField(key)
  }

  /** The column a key names (`password` names `password_hash`). */
  function Column(u: User, key: string): Option<string>
  {
    if key == "password" then Some(u.passwordHash)
    else if key == "email" then Some(u.email)
    else if key == "first_name" then Some(u.firstName)
    else if key == "last_name" then Some(u.lastName)
    else if key == "avatar_url" then u.avatarUrl
    else if key == "bio" then Some(u.bio)
    else None
  }

  /** The value an entry stores: the hash of a password, any other value as given. */
  function Written(c: Change, hash: string -> string): string
  {
    if c.key == "password" then hash(c.value) else c.value
  }

  lemma ApplyOneColumns(u: User, c: Change, hash: string -> string, key: string)
    ensures key == c.key && IsColumn(key) ==> Column(ApplyOne(u, c, hash), key) == Some(Written(c, hash))
    ensures key != c.key ==> Column(ApplyOne(u, c, hash), key) == Column(u, key)
  {
  }

  /** A column whose key is absent keeps its old value. */
  lemma {:induction false} ApplyUnlisted(u: User, changes: seq<Change>, hash: string -> string, key: string)
    requires KeyAbsent(changes, key)
    ensures Column(Apply(u, changes, hash), key) == Column(u, key)
    decreases |changes|
  {
    if changes != [] {
      var tl := changes[1..];
      assert KeyAbsent(tl, key) by {
        forall i | 0 <= i < |tl| ensures tl[i].key != key { assert tl[i] == changes[i + 1]; }
      }
      ApplyOneColumns(u, changes[0], hash, key);
      ApplyUnlisted(ApplyOne(u, changes[0], hash), tl, hash, key);
    }
  }

  /** With distinct keys (an object's keys are), every listed column takes the entry's
      value, the password column its hash. */
  lemma {:induction false} ApplyListed(u: User, changes: seq<Change>, hash: string -> string, i: nat)
    requires KeysDistinct(changes) && i < |changes| && IsColumn(changes[i].key)
    ensures Column(Apply(u, changes, hash), changes[i].key) == Some(Written(changes[i], hash))
    decreases i
  {
    var tl := changes[1..];
    TailKeys(changes);
    if i == 0 {
      ApplyOneColumns(u, changes[0], hash, changes[0].key);
      ApplyUnlisted(ApplyOne(u, changes[0], hash), tl, hash, changes[0].key);
    } else {
      assert tl[i - 1] == changes[i];
      ApplyListed(ApplyOne(u, changes[0], hash), tl, hash, i - 1);
    }
  }

  /** No two users share an email. */
  predicate EmailsUnique(users: map<UserId, User>)
  {
    forall a, b :: a in users && b in users && a != b ==> users[a].email != users[b].email
  }

  /** A successful update keeps emails unique: a new email must be unused, even by the
      user being updated. */
  lemma UpdateKeepsEmailsUnique(users: map<UserId, User>, id: UserId, changes: seq<Change>,
                                hash: string -> string, emailValid: string -> bool)
    requires EmailsUnique(users) && KeysDistinct(changes)
    requires UpdateOutcome(users, id, changes, hash, emailValid).Ok?
    ensures EmailsUnique(users[id := UpdateOutcome(users, id, changes, hash, emailValid).value])
  {
    if KeyAbsent(changes, "email") {
      ApplyUnlisted(users[id], changes, hash, "email");
    } else {
      var i :| 0 <= i < |changes| && changes[i].key == "email";
      ApplyListed(users[id], changes, hash, i);
      assert !EmailInUse(users, changes[i].value);
    }
  }

  /** Re-submitting one's own current email is refused as already taken. */
  lemma OwnEmailIsTaken(users: map<UserId, User>, id: UserId, hash: string -> string, emailValid: string -> bool)
    requires id in users && emailValid(users[id].email)
    ensures UpdateOutcome(users, id, [Change("email", users[id].email)], hash, emailValid)
         == Err(ApiError("user_update/email_exists"))
  {
    var changes := [Change("email", users[id].email)];
    assert EmailInUse(users, changes[0].value);
  }

  /** The first change that fails is the one reported. */
  lemma {:induction false} FirstErrorAt(changes: seq<Change>, emailValid: string -> bool, i: nat)
    requires i < |changes| && ChangeError(changes[i], emailValid).Some?
    requires forall k :: 0 <= k < i ==> ChangeError(changes[k], emailValid).None?
    ensures FirstError(changes, emailValid) == ChangeError(changes[i], emailValid)
    decreases i
  {
    if i > 0 {
      var tl := changes[1..];
      assert tl[i - 1] == changes[i];
      assert forall k :: 0 <= k < i - 1 ==> tl[k] == changes[k + 1];
      FirstErrorAt(tl, emailValid, i - 1);
    }
  }
}

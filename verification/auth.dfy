/** The mock user store: e-mail normalisation, login, and self-registration.
    Session tokens (a base64 of the user id and a timestamp) are not part of
    this model; login and registration return the fields that come with it. */
module Auth {
  import opened Wrappers
  import opened MockDb
  import Seqs
  import Text

  /** `normalizeEmail`: trimmed and lower-cased. */
  function NormalizeEmail(s: string): (e: string)
    ensures |e| <= |s|
    ensures |e| > 0 ==> !Text.IsSpace(e[0]) && !Text.IsSpace(e[|e| - 1])
    ensures forall i :: 0 <= i < |e| ==> !('A' <= e[i] <= 'Z')
    ensures |e| == |Text.Trim(s)| && forall i :: 0 <= i < |e| ==> e[i] == Text.LowerChar(Text.Trim(s)[i])
  {
    var t := Text.Trim(s);
    var e := Text.ToLower(t);
    assert |e| > 0 ==> Text.IsSpace(e[0]) == Text.IsSpace(t[0]) && Text.IsSpace(e[|e| - 1]) == Text.IsSpace(t[|t| - 1]) by {
      if |e| > 0 {
        Text.LowerCharSpace(t[0]);
        Text.LowerCharSpace(t[|t| - 1]);
      }
    }
    e
  }

  /** Normalising a normalised address changes nothing. */
  lemma NormalizeEmailIdempotent(s: string)
    ensures NormalizeEmail(NormalizeEmail(s)) == NormalizeEmail(s)
  {
    var t := Text.Trim(s);
    Text.TrimToLower(t);
    Text.TrimIdempotent(s);
    Text.ToLowerIdempotent(t);
  }

  /** Addresses that differ only in white space around them or in the case
      of ASCII letters normalise to the same address. */
  lemma NormalizeEmailEquivalent(a: string, b: string, pre: string, post: string)
    requires Text.AllSpace(pre) && Text.AllSpace(post)
    requires Text.ToLower(a) == Text.ToLower(b)
    ensures NormalizeEmail(pre + a + post) == NormalizeEmail(b)
  {
    Text.TrimPadded(pre, a, post);
    Text.TrimToLower(a);
    Text.TrimToLower(b);
  }

  /** What `login` returns besides the token. */
  datatype Session = Session(role: Role, userId: string, name: string)

  /** `u` may log in with these credentials. */
  predicate Accepts(u: User, email: string, password: string) {
    NormalizeEmail(u.email) == NormalizeEmail(email) && u.password == password
  }

  /** `Accepts` as a test on users. */
  function AcceptedBy(email: string, password: string): User -> bool {
    (u: User) => Accepts(u, email, password)
  }

  /** `login(email, password)`: the first user with an equal normalised e-mail
      and an identical password. */
  function Login(users: seq<User>, email: string, password: string): (r: Result<Session, string>)
    ensures r.Success? <==> exists u :: u in users && Accepts(u, email, password)
    ensures r.Success? ==> forall k ::
      (0 <= k < |users| && Accepts(users[k], email, password)
        && forall m :: 0 <= m < k ==> !Accepts(users[m], email, password)) ==>
      r.value == Session(users[k].role, users[k].id, users[k].name)
    ensures r.Failure? ==> r.error == "Invalid email or password"
  {
    var p := AcceptedBy(email, password);
    Seqs.FindIndexUnique(users, p);
    match Seqs.FindIndex(users, p)
    case None => Failure("Invalid email or password")
    case Some(k) =>
      assert users[k] in users;
      Success(Session(users[k].role, users[k].id, users[k].name))
  }

  /** Some user's normalised e-mail equals that of `email`. */
  predicate EmailInUse(users: seq<User>, email: string) {
    exists u :: u in users && NormalizeEmail(u.email) == NormalizeEmail(email)
  }

  /** What `register` returns besides the token. */
  datatype Account = Account(role: Role, userId: string, name: string, vehicle: map<string, string>)

  /** The user `register` creates under the id `newId`. */
  function NewUser(newId: string, name: string, email: string, password: string, vehicle: map<string, string>): User {
    User(newId, Text.Trim(name), NormalizeEmail(email), Resident, password, Some(vehicle))
  }

  /** `register(name, email, password, vehicle)`, creating the user `newId`
      (`vehicle` is `{}` when the caller passes none). The checks run in order:
      e-mail in use, blank name, password shorter than 6 UTF-16 units. */
  function Register(db: Db, name: string, email: string, password: string,
                    vehicle: map<string, string>, newId: string): (o: Outcome<Account>)
    ensures o.result.Failure? ==> o.db == db
    ensures EmailInUse(db.users, email) ==> o.result == Failure("Email already in use")
    ensures !EmailInUse(db.users, email) && Text.IsBlank(name) ==> o.result == Failure("Name is required")
    ensures !EmailInUse(db.users, email) && !Text.IsBlank(name) && Text.Utf16Length(password) < 6 ==>
      o.result == Failure("Password must be at least 6 characters")
    ensures o.result.Success? <==> !EmailInUse(db.users, email) && !Text.IsBlank(name) && Text.Utf16Length(password) >= 6
    ensures o.result.Success? ==>
      && o.db == db.(users := db.users + [NewUser(newId, name, email, password, vehicle)])
      && o.result.value == Account(Resident, newId, Text.Trim(name), vehicle)
  {
    if exists u :: u in db.users && NormalizeEmail(u.email) == NormalizeEmail(email) then
      Outcome(db, Failure("Email already in use"))
    else if Text.Trim(name) == "" then
      Outcome(db, Failure("Name is required"))
    else if Text.Utf16Length(password) < 6 then
      Outcome(db, Failure("Password must be at least 6 characters"))
    else
      var u := NewUser(newId, name, email, password, vehicle);
      Outcome(db.(users := db.users + [u]), Success(Account(Resident, newId, u.name, vehicle)))
  }

  /** The new user's stored fields: role RESIDENT, a normalised e-mail with no
      surrounding white space or capital letter, a trimmed non-blank name. */
  lemma RegisterStoresNormalised(db: Db, name: string, email: string, password: string,
                                 vehicle: map<string, string>, newId: string)
    requires Register(db, name, email, password, vehicle, newId).result.Success?
    ensures var u := NewUser(newId, name, email, password, vehicle);
      && Register(db, name, email, password, vehicle, newId).db.users == db.users + [u]
      && u.role == Resident && u.id == newId && u.password == password
      && NormalizeEmail(u.email) == u.email
      && Text.Trim(u.name) == u.name && u.name != ""
  {
    NormalizeEmailIdempotent(email);
    Text.TrimIdempotent(name);
  }

  /** Round trip: after a successful registration, logging in with any address
      that normalises to the same one and the same password yields the new
      user. */
  lemma RegisterThenLogin(db: Db, name: string, email: string, password: string,
                          vehicle: map<string, string>, newId: string, email2: string)
    requires Register(db, name, email, password, vehicle, newId).result.Success?
    requires NormalizeEmail(email2) == NormalizeEmail(email)
    ensures Login(Register(db, name, email, password, vehicle, newId).db.users, email2, password)
         == Success(Session(Resident, newId, Text.Trim(name)))
  {
    var u := NewUser(newId, name, email, password, vehicle);
    assert Register(db, name, email, password, vehicle, newId).db.users == db.users + [u];
    NormalizeEmailIdempotent(email);
    forall v | v in db.users ensures !Accepts(v, email2, password) {
      assert !(v in db.users && NormalizeEmail(v.email) == NormalizeEmail(email));
    }
    LoginFindsAppended(db.users, u, email2, password);
  }

  /** A user appended after users none of whom accept the credentials is the
      one logged in, when it accepts them. */
  lemma LoginFindsAppended(users: seq<User>, u: User, email: string, password: string)
    requires forall v :: v in users ==> !Accepts(v, email, password)
    requires Accepts(u, email, password)
    ensures Login(users + [u], email, password) == Success(Session(u.role, u.id, u.name))
  {
    var p := AcceptedBy(email, password);
    forall i | 0 <= i < |users| ensures !p(users[i]) {
      assert users[i] in users;
    }
    Seqs.FindIndexAppended(users, u, p);
    LoginOfFirst(users + [u], email, password, |users|);
    assert (users + [u])[|users|] == u;
  }

  /** Login yields the user at the first index that accepts the credentials. */
  lemma LoginOfFirst(users: seq<User>, email: string, password: string, k: nat)
    requires Seqs.FindIndex(users, AcceptedBy(email, password)) == Some(k)
    ensures k < |users| && Login(users, email, password) == Success(Session(users[k].role, users[k].id, users[k].name))
  {
  }

  /** A second registration with an address that normalises to the same one
      is refused. */
  lemma RegisterTwiceRefused(db: Db, name: string, email: string, password: string,
                             vehicle: map<string, string>, newId: string,
                             name2: string, email2: string, password2: string,
                             vehicle2: map<string, string>, newId2: string)
    requires Register(db, name, email, password, vehicle, newId).result.Success?
    requires NormalizeEmail(email2) == NormalizeEmail(email)
    ensures Register(Register(db, name, email, password, vehicle, newId).db, name2, email2, password2, vehicle2, newId2).result
         == Failure("Email already in use")
  {
    var users := Register(db, name, email, password, vehicle, newId).db.users;
    NormalizeEmailIdempotent(email);
    assert users[|db.users|] in users;
  }
}

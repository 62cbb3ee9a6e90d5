/**
  The login helper: decide whether the typed identifier is an e-mail address,
  look the account up by `mail` or by `username`, and hand back the stored
  username with the typed password.

  The user table is a sequence of rows. The ORM's `objects.get(field=value)`
  succeeds only when exactly one row matches; any other count raises, and the
  helper catches every exception.
*/
module GetUsernameObject {
  import opened Wrappers
  import EmailPattern

  /** The columns of a user row that the helper reads. */
  datatype User = User(id: nat, username: string, mail: string)

  /** The column a lookup filters on. */
  datatype LookupField = ByMail | ByUsername

  function Key(u: User, f: LookupField): string {
    match f
    case ByMail => u.mail
    case ByUsername => u.username
  }

  /** The rows whose column f equals key, in table order. */
  function Filter(store: seq<User>, f: LookupField, key: string): (r: seq<User>)
    ensures |r| <= |store|
    ensures forall u :: u in r ==> u in store && Key(u, f) == key
    ensures forall u :: u in store && Key(u, f) == key ==> u in r
  {
    if store == [] then []
    else (if Key(store[0], f) == key then [store[0]] else []) + Filter(store[1..], f, key)
  }

  /** Row i is the one and only row whose column f equals key. */
  predicate OnlyMatch(store: seq<User>, f: LookupField, key: string, i: int) {
    && 0 <= i < |store|
    && Key(store[i], f) == key
    && forall j :: 0 <= j < |store| && Key(store[j], f) == key ==> j == i
  }

  /** `User.objects.get(<f>=key)`: the row when exactly one matches, None when the ORM would raise. */
  function Get(store: seq<User>, f: LookupField, key: string): Option<User> {
    var m := Filter(store, f, key);
    if |m| == 1 then Some(m[0]) else None
  }

  /** No row matches exactly when the filter is empty. */
  lemma FilterEmpty(store: seq<User>, f: LookupField, key: string)
    ensures Filter(store, f, key) == [] <==> forall j :: 0 <= j < |store| ==> Key(store[j], f) != key
  {
  }

  lemma {:induction false} FilterSingleton(store: seq<User>, f: LookupField, key: string, i: int)
    requires 0 <= i < |store| && Key(store[i], f) == key
    ensures OnlyMatch(store, f, key, i) <==> Filter(store, f, key) == [store[i]]
    decreases |store|
  {
    var rest := store[1..];
    if i == 0 {
      assert Filter(store, f, key) == [store[0]] + Filter(rest, f, key);
      FilterEmpty(rest, f, key);
      assert OnlyMatch(store, f, key, 0) <==> forall j :: 0 <= j < |rest| ==> Key(rest[j], f) != key by {
        forall j | 1 <= j < |store| ensures store[j] == rest[j - 1] { }
      }
    } else if Key(store[0], f) == key {
      assert !OnlyMatch(store, f, key, i);
      assert store[i] in Filter(rest, f, key) by { assert store[i] == rest[i - 1]; }
      assert |Filter(store, f, key)| >= 2;
    } else {
      assert Filter(store, f, key) == Filter(rest, f, key);
      assert store[i] == rest[i - 1];
      FilterSingleton(rest, f, key, i - 1);
      OnlyMatchShift(store, f, key, i);
    }
  }

  /** Past a first row that does not match, a unique match keeps its place one row further on. */
  lemma OnlyMatchShift(store: seq<User>, f: LookupField, key: string, i: int)
    requires 0 < i < |store| && Key(store[0], f) != key
    ensures OnlyMatch(store, f, key, i) <==> OnlyMatch(store[1..], f, key, i - 1)
  {
  }

  /** `get` finds a row exactly when one and only one row matches, and then it is that row. */
  lemma GetSpec(store: seq<User>, f: LookupField, key: string)
    ensures Get(store, f, key).Some? <==> exists i :: OnlyMatch(store, f, key, i)
    ensures forall i :: OnlyMatch(store, f, key, i) ==> Get(store, f, key) == Some(store[i])
  {
    forall i | OnlyMatch(store, f, key, i) ensures Get(store, f, key) == Some(store[i]) {
      FilterSingleton(store, f, key, i);
    }
    if Get(store, f, key).Some? {
      var u := Filter(store, f, key)[0];
      assert u in store;
      var i :| 0 <= i < |store| && store[i] == u;
      FilterSingleton(store, f, key, i);
    }
  }

  /** The column `get_user_from_form` filters on for a typed identifier. */
  function KeyFieldFor(identifier: string): LookupField {
    if EmailPattern.IsEmail(identifier) then ByMail else ByUsername
  }

  /**
    The row found inside the `try` of `get_user_from_form`, None when it raises:
    a missing identifier makes `re.match` raise, a failed `get` raises too.
  */
  function FindUser(store: seq<User>, identifier: Option<string>): Option<User> {
    match identifier
    case None => None
    case Some(id) => Get(store, KeyFieldFor(id), id)
  }

  /** The pair `get_user_from_form` returns: (username, password), each possibly None. */
  datatype Credentials = Credentials(username: Option<string>, password: Option<string>)

  /** The result of `get_user_from_form` for the form's two cleaned values. */
  function Resolve(store: seq<User>, identifier: Option<string>, password: Option<string>): Credentials {
    match FindUser(store, identifier)
    case Some(u) => Credentials(Some(u.username), password)
    case None => Credentials(None, None)
  }

  /** An identifier without '@' is always looked up by username. */
  lemma NoAtMeansUsernameLookup(identifier: string)
    requires '@' !in identifier
    ensures KeyFieldFor(identifier) == ByUsername
  {
    EmailPattern.NoAtIsNotEmail(identifier);
  }

  /**
    A login succeeds exactly when one row matches the identifier in the column
    the pattern selects (mail for an e-mail address, username otherwise), and
    then yields that row's stored username and the typed password unchanged.
  */
  lemma ResolveSpec(store: seq<User>, identifier: string, password: Option<string>)
    ensures Resolve(store, Some(identifier), password).username.Some?
        <==> exists i :: OnlyMatch(store, KeyFieldFor(identifier), identifier, i)
    ensures forall i :: OnlyMatch(store, KeyFieldFor(identifier), identifier, i) ==>
              Resolve(store, Some(identifier), password) == Credentials(Some(store[i].username), password)
  {
    GetSpec(store, KeyFieldFor(identifier), identifier);
  }

  /** A login by e-mail yields the username of the one account with that mail, not the typed text. */
  lemma EmailLoginYieldsStoredUsername(store: seq<User>, identifier: string, password: Option<string>, i: int)
    requires EmailPattern.IsEmail(identifier)
    requires OnlyMatch(store, ByMail, identifier, i)
    ensures Resolve(store, Some(identifier), password) == Credentials(Some(store[i].username), password)
  {
    GetSpec(store, ByMail, identifier);
  }

  /** An e-mail identifier that no row, or several rows, hold as mail fails, whatever the usernames are. */
  lemma EmailNeverFallsBackToUsername(store: seq<User>, identifier: string, password: Option<string>)
    requires EmailPattern.IsEmail(identifier)
    requires forall i :: !OnlyMatch(store, ByMail, identifier, i)
    ensures Resolve(store, Some(identifier), password) == Credentials(None, None)
  {
    GetSpec(store, ByMail, identifier);
  }

  /** A failed lookup gives None for both parts, never for only one. */
  lemma FailureIsBothNone(store: seq<User>, identifier: Option<string>, password: Option<string>)
    ensures Resolve(store, identifier, password).username.None?
        ==> Resolve(store, identifier, password) == Credentials(None, None)
    ensures identifier.None? ==> Resolve(store, identifier, password) == Credentials(None, None)
  {
  }

  /** The cleaned data of the login form: field name to cleaned value. */
  datatype Form = Form(cleanedData: map<string, string>)

  /** `dict.get(key)`: the value, or None when the key is missing */
  function CleanedValue(form: Form, key: string): Option<string> {
    if key in form.cleanedData then Some(form.cleanedData[key]) else None
  }

  class GetUserObject {
    /** The row found by the last successful `get_user_from_form`, None before any. */
    var user: Option<User>

    constructor ()
      ensures user == None
    {
      user := None;
    }

    /** `get_user_object_from_mail`: the one row whose mail equals the argument, or None. */
    method GetUserObjectFromMail(store: seq<User>, mailProvided: string) returns (r: Option<User>)
      ensures r.Some? <==> exists i :: OnlyMatch(store, ByMail, mailProvided, i)
      ensures forall i :: OnlyMatch(store, ByMail, mailProvided, i) ==> r == Some(store[i])
    {
      r := Get(store, ByMail, mailProvided);
      GetSpec(store, ByMail, mailProvided);
    }

    /**
      `get_user_from_form`: on success records the found row in `user`; on
      failure returns (None, None) and leaves `user` as it was, because the
      assignment happens only after the lookup returned.
    */
    method GetUserFromForm(store: seq<User>, form: Form) returns (username: Option<string>, password: Option<string>)
      modifies this
      ensures Credentials(username, password)
           == Resolve(store, CleanedValue(form, "username_or_email"), CleanedValue(form, "password"))
      ensures user == if username.Some? then FindUser(store, CleanedValue(form, "username_or_email")) else old(user)
    {
      var usernameOrEmail := CleanedValue(form, "username_or_email");
      var typedPassword := CleanedValue(form, "password");
      if usernameOrEmail.None? {
        return None, None;
      }
      var identifier := usernameOrEmail.value;
      var found: Option<User>;
      if EmailPattern.IsEmail(identifier) {
        found := Get(store, ByMail, identifier);
      } else {
        found := Get(store, ByUsername, identifier);
      }
      if found.None? {
        return None, None;
      }
      user := found;
      username, password := Some(user.value.username), typedPassword;
    }
  }
}
